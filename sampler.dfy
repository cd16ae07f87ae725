/** The page sampler of `extractPDFText` (app.js): from the texts of at most
    the first five pages it keeps page 1, page 2 and the longest later page,
    each under a header, collapses whitespace, and bounds the result. Page
    `i + 1` is `pages[i]`. */
module Sampler {
  import opened Util
  import opened Strings

  /** The loader reads at most this many pages. */
  const MaxPages := 5
  /** A collapsed text shorter than this is replaced by `Sentinel`. */
  const MinChars := 50
  /** The excerpt is cut to this many characters. */
  const MaxChars := 4000
  /** The text used when too little text is found; written as two halves,
      each short enough for the verifier to see its characters. */
  const Sentinel := "No readable text content " + "found (possibly parsed as image)."
  /** The header of page 1, up to its line break. */
  const FirstHeader := "--- Page 1 ---"

  /** A page chosen for the excerpt; `heavy` marks the "Content Heavy" page. */
  datatype Block = Block(page: nat, heavy: bool, text: string)

  function Digit(n: nat): (c: char)
    requires n < 10
    ensures IsDigit(c)
  {
    ('0' as int + n) as char
  }

  /** `--- Page N ---\n<text>\n\n`, with ` (Content Heavy)` after the number
      for the heavy page. */
  function Render(b: Block): string
    requires b.page < 10
  {
    "--- Page " + [Digit(b.page)] + (if b.heavy then " (Content Heavy)" else "") + " ---\n"
    + b.text + "\n\n"
  }

  function Concat(bs: seq<Block>): string
    requires forall b :: b in bs ==> b.page < 10
  {
    if bs == [] then "" else Render(bs[0]) + Concat(bs[1..])
  }

  /** Page index `k` is the heavy page among the indices `2 .. n - 1` (pages 3
      to n): no page there is longer, and every earlier one is shorter. */
  predicate IsHeaviest(pages: seq<string>, n: nat, k: nat)
    requires n <= |pages|
  {
    2 <= k < n
    && (forall j :: 2 <= j < n ==> |pages[j]| <= |pages[k]|)
    && (forall j :: 2 <= j < k ==> |pages[j]| < |pages[k]|)
  }

  /** The heavy page among the first `n` pages, as the `forEach` scan finds
      it: a page replaces the current one only when strictly longer. */
  function HeaviestIn(pages: seq<string>, n: nat): (k: Option<nat>)
    requires n <= |pages|
    ensures k.None? <==> n <= 2
    ensures k.Some? ==> IsHeaviest(pages, n, k.value)
  {
    if n <= 2 then None
    else
      var best := HeaviestIn(pages, n - 1);
      if best.None? || |pages[n - 1]| > |pages[best.value]| then Some(n - 1) else best
  }

  /** At most one page is the heavy one. */
  lemma HeaviestUnique(pages: seq<string>, n: nat, k1: nat, k2: nat)
    requires n <= |pages| && IsHeaviest(pages, n, k1) && IsHeaviest(pages, n, k2)
    ensures k1 == k2
  {
    assert |pages[k2]| <= |pages[k1]| && |pages[k1]| <= |pages[k2]|;
  }

  /** The blocks in the order they are appended: page 1, page 2, heavy page. */
  function Blocks(pages: seq<string>): (bs: seq<Block>)
    requires |pages| <= MaxPages
    ensures forall b :: b in bs ==> 1 <= b.page <= MaxPages
  {
    (if |pages| > 0 then [Block(1, false, pages[0])] else [])
    + (if |pages| > 1 then [Block(2, false, pages[1])] else [])
    + (match HeaviestIn(pages, |pages|)
       case Some(k) => [Block(k + 1, true, pages[k])]
       case None => [])
  }

  /** The text before clean-up. */
  function RawText(pages: seq<string>): string
    requires |pages| <= MaxPages
  {
    Concat(Blocks(pages))
  }

  /** `replace(/\s+/g, ' ')`: every whitespace run becomes one space. */
  function Squeeze(s: string): string
    decreases |s|
  {
    if s == [] then []
    else if IsSpace(s[0]) then [' '] + Squeeze(TrimStart(s))
    else [s[0]] + Squeeze(s[1..])
  }

  /** `replace(/\s+/g, ' ').trim()`. */
  function Collapse(s: string): string {
    Trim(Squeeze(s))
  }

  /** The excerpt: the sentinel when the collapsed text is short, else its
      first `MaxChars` characters. */
  function Excerpt(pages: seq<string>): (r: string)
    requires |pages| <= MaxPages
    ensures |r| <= MaxChars
  {
    Bound(Collapse(RawText(pages)))
  }

  /** The clean-up after collapsing: the sentinel for a short text, else its
      first `MaxChars` characters. */
  function Bound(c: string): (r: string)
  {
    if |c| < MinChars then Sentinel else FirstN(c, MaxChars)
  }

  /** The body of the `Promise.all` callback of `extractPDFText`: assemble
      the blocks, then clean up and bound the text. */
  method SampleText(pages: seq<string>) returns (finalText: string)
    requires |pages| <= MaxPages
    ensures finalText == Excerpt(pages)
  {
    finalText := AssembleBlocks(pages);
    finalText := Collapse(finalText);
    if |finalText| < MinChars {
      finalText := Sentinel;
    } else {
      finalText := FirstN(finalText, MaxChars);
    }
  }

  /** The `finalText +=` steps: page 1 and page 2 when present, recorded in
      `selectedPages`, then the heavy page. */
  method AssembleBlocks(pages: seq<string>) returns (finalText: string)
    requires |pages| <= MaxPages
    ensures finalText == RawText(pages)
  {
    finalText := "";
    ghost var chosen: seq<Block> := [];
    var selectedPages: set<nat> := {};
    if |pages| > 0 {
      var b := Block(1, false, pages[0]);
      ConcatSnoc(chosen, b);
      finalText, chosen := finalText + Render(b), chosen + [b];
      selectedPages := selectedPages + {1};
    }
    if |pages| > 1 {
      var b := Block(2, false, pages[1]);
      ConcatSnoc(chosen, b);
      finalText, chosen := finalText + Render(b), chosen + [b];
      selectedPages := selectedPages + {2};
    }
    var maxPage := FindHeaviest(pages, selectedPages);
    if maxPage.Some? {
      var b := Block(maxPage.value + 1, true, pages[maxPage.value]);
      ConcatSnoc(chosen, b);
      finalText, chosen := finalText + Render(b), chosen + [b];
    }
    assert chosen == Blocks(pages);
  }

  lemma ConcatSnoc(bs: seq<Block>, b: Block)
    requires b.page < 10 && forall x :: x in bs ==> x.page < 10
    ensures Concat(bs + [b]) == Concat(bs) + Render(b)
  {
    ConcatAppend(bs, [b]);
    assert Concat([b]) == Render(b) + Concat([]);
  }

  /** The `forEach` scan for the longest page not yet selected: a page
      replaces the current choice only when strictly longer. */
  method FindHeaviest(pages: seq<string>, selectedPages: set<nat>) returns (maxPage: Option<nat>)
    requires forall k :: k in selectedPages <==> 1 <= k <= 2 && k <= |pages|
    ensures maxPage == HeaviestIn(pages, |pages|)
  {
    maxPage := None;
    var maxLength := -1;
    var i := 0;
    while i < |pages|
      invariant 0 <= i <= |pages|
      invariant maxPage == HeaviestIn(pages, i)
      invariant maxLength == if maxPage.None? then -1 else |pages[maxPage.value]|
    {
      if i + 1 !in selectedPages {
        if |pages[i]| > maxLength {
          maxLength := |pages[i]|;
          maxPage := Some(i);
        }
      }
      i := i + 1;
    }
  }

  lemma {:induction false} ConcatAppend(xs: seq<Block>, ys: seq<Block>)
    requires forall b :: b in xs + ys ==> b.page < 10
    ensures Concat(xs + ys) == Concat(xs) + Concat(ys)
  {
    if xs != [] {
      assert (xs + ys)[1..] == xs[1..] + ys;
      ConcatAppend(xs[1..], ys);
    } else {
      assert xs + ys == ys;
    }
  }

  /** Every whitespace character is a plain space. */
  predicate PlainSpaces(t: string) {
    forall i :: 0 <= i < |t| && IsSpace(t[i]) ==> t[i] == ' '
  }

  /** No two whitespace characters are adjacent. */
  predicate NoDoubleSpace(t: string) {
    forall i :: 0 <= i < |t| - 1 ==> !(IsSpace(t[i]) && IsSpace(t[i + 1]))
  }

  predicate Normal(t: string) {
    PlainSpaces(t) && NoDoubleSpace(t)
  }

  lemma SqueezeHead(s: string)
    requires s != [] && !IsSpace(s[0])
    ensures Squeeze(s) != [] && Squeeze(s)[0] == s[0]
  {
  }

  /** After `replace(/\s+/g, ' ')` whitespace is single plain spaces. */
  lemma {:induction false} SqueezeIsNormal(s: string)
    ensures Normal(Squeeze(s))
    decreases |s|
  {
    if s != [] {
      if IsSpace(s[0]) {
        var t := TrimStart(s);
        SqueezeIsNormal(t);
        if t != [] {
          SqueezeHead(t);
        }
      } else {
        SqueezeIsNormal(s[1..]);
      }
    }
  }

  lemma NormalSlice(t: string, i: nat, j: nat)
    requires Normal(t) && i <= j <= |t|
    ensures Normal(t[i..j])
  {
    assert forall k :: 0 <= k < j - i ==> t[i..j][k] == t[i + k];
  }

  /** Text already in normal form is left alone by the squeeze. */
  lemma {:induction false} SqueezeOfNormal(t: string)
    requires Normal(t)
    ensures Squeeze(t) == t
    decreases |t|
  {
    if t != [] {
      NormalSlice(t, 1, |t|);
      SqueezeOfNormal(t[1..]);
      if IsSpace(t[0]) {
        assert TrimStart(t) == t[1..];
      }
    }
  }

  /** A normal prefix ending in a non-space character squeezes to itself. */
  lemma SqueezePrefix(p: string, t: string)
    requires Normal(p) && p != [] && !IsSpace(p[|p| - 1])
    ensures Squeeze(p + t) == p + Squeeze(t)
  {
    SqueezeIsFold(p + t);
    SqueezeIsFold(p);
    SqueezeIsFold(t);
    FoldAppend(p, t, false);
    assert !EndsInRun(p, false);
    SqueezeOfNormal(p);
  }

  /** Trimming the end keeps a prefix that ends in a non-space character. */
  lemma TrimEndKeeps(p: string, v: string)
    requires p != [] && !IsSpace(p[|p| - 1])
    ensures p <= TrimEnd(p + v)
  {
    var r := TrimEnd(p + v);
    assert (p + v)[|p| - 1] == p[|p| - 1];
    assert |p| <= |r|;
    assert r[..|p|] == (p + v)[..|p|] == p;
  }

  /** Trimming normal text leaves normal text with non-space ends. */
  lemma TrimNormal(q: string)
    requires Normal(q)
    ensures Normal(Trim(q))
    ensures Trim(q) == [] || (!IsSpace(Trim(q)[0]) && !IsSpace(Trim(q)[|Trim(q)| - 1]))
  {
    var a := TrimStart(q);
    NormalSlice(q, |q| - |a|, |q|);
    TrimEndNormal(a);
  }

  lemma TrimEndNormal(a: string)
    requires Normal(a) && (a == [] || !IsSpace(a[0]))
    ensures Normal(TrimEnd(a))
    ensures TrimEnd(a) == [] || (!IsSpace(TrimEnd(a)[0]) && !IsSpace(TrimEnd(a)[|TrimEnd(a)| - 1]))
  {
    var c := TrimEnd(a);
    NormalSlice(a, 0, |c|);
    assert c == [] || c[0] == a[0];
  }

  /** Text with non-space ends is its own trim. */
  lemma TrimOfTrimmed(c: string)
    requires c == [] || (!IsSpace(c[0]) && !IsSpace(c[|c| - 1]))
    ensures Trim(c) == c
  {
    assert TrimStart(c) == c;
  }

  /** Collapsed text has no leading or trailing whitespace and only single
      plain spaces inside. */
  lemma CollapseForm(s: string)
    ensures Normal(Collapse(s))
    ensures Collapse(s) == [] || (!IsSpace(Collapse(s)[0]) && !IsSpace(Collapse(s)[|Collapse(s)| - 1]))
  {
    SqueezeIsNormal(s);
    TrimNormal(Squeeze(s));
  }

  /** Collapsing is idempotent. */
  lemma CollapseIdempotent(s: string)
    ensures Collapse(Collapse(s)) == Collapse(s)
  {
    var c := Collapse(s);
    CollapseForm(s);
    SqueezeOfNormal(c);
    TrimOfTrimmed(c);
  }

  /** What one character gives in `replace(/\s+/g, ' ')` read left to right:
      a whitespace character gives a space when it starts a run (`inRun` is
      false) and nothing otherwise; any other character is kept. */
  function Emit(c: char, inRun: bool): string {
    if !IsSpace(c) then [c] else if inRun then [] else [' ']
  }

  /** `replace(/\s+/g, ' ')` read left to right, one character at a time. */
  function Fold(s: string, inRun: bool): string
    decreases |s|
  {
    if s == [] then [] else Emit(s[0], inRun) + Fold(s[1..], IsSpace(s[0]))
  }

  /** Inside a run the rest of the run gives nothing. */
  lemma {:induction false} FoldRun(s: string)
    ensures Fold(s, true) == Fold(TrimStart(s), true)
    decreases |s|
  {
    if s != [] && IsSpace(s[0]) {
      FoldRun(s[1..]);
    }
  }

  /** The squeeze is the left-to-right reading: each whitespace run gives
      exactly one space and every other character is kept, in order. */
  lemma {:induction false} SqueezeIsFold(s: string)
    ensures Squeeze(s) == Fold(s, false)
    decreases |s|
  {
    if s != [] {
      if IsSpace(s[0]) {
        var t := TrimStart(s);
        SqueezeIsFold(t);
        FoldRun(s[1..]);
        assert TrimStart(s[1..]) == t;
        assert Fold(t, true) == Fold(t, false);
      } else {
        SqueezeIsFold(s[1..]);
      }
    }
  }

  lemma FoldCons(x: char, rest: string, inRun: bool)
    ensures Fold([x] + rest, inRun) == Emit(x, inRun) + Fold(rest, IsSpace(x))
  {
    assert ([x] + rest)[1..] == rest;
  }

  /** Whether the reading is inside a whitespace run after `p`. */
  function EndsInRun(p: string, inRun: bool): bool {
    if p == [] then inRun else IsSpace(p[|p| - 1])
  }

  /** The reading of `p + t` is that of `p`, then that of `t` started in the
      state `p` ends in. */
  lemma {:induction false} FoldAppend(p: string, t: string, inRun: bool)
    ensures Fold(p + t, inRun) == Fold(p, inRun) + Fold(t, EndsInRun(p, inRun))
    decreases |p|
  {
    if p == [] {
      assert p + t == t;
    } else {
      var x, q := p[0], p[1..];
      assert p == [x] + q;
      assert p + t == [x] + (q + t);
      FoldCons(x, q + t, inRun);
      FoldCons(x, q, inRun);
      FoldAppend(q, t, IsSpace(x));
      assert EndsInRun(q, IsSpace(x)) == EndsInRun(p, inRun);
    }
  }

  /** The characters of `s` that are not whitespace, in order. */
  function NonSpace(s: string): string {
    Filter(s, (c: char) => !IsSpace(c))
  }

  lemma {:induction false} NonSpaceOfSpaces(s: string)
    requires forall i :: 0 <= i < |s| ==> IsSpace(s[i])
    ensures NonSpace(s) == []
    decreases |s|
  {
    if s != [] {
      NonSpaceOfSpaces(s[1..]);
    }
  }

  /** Dropping a whitespace run from either end drops no other character. */
  lemma NonSpaceSplit(s: string, k: nat)
    requires k <= |s|
    ensures (forall i :: 0 <= i < k ==> IsSpace(s[i])) ==> NonSpace(s[k..]) == NonSpace(s)
    ensures (forall i :: k <= i < |s| ==> IsSpace(s[i])) ==> NonSpace(s[..k]) == NonSpace(s)
  {
    assert s == s[..k] + s[k..];
    FilterAppend(s[..k], s[k..], (c: char) => !IsSpace(c));
    if forall i :: 0 <= i < k ==> IsSpace(s[i]) {
      NonSpaceOfSpaces(s[..k]);
    }
    if forall i :: k <= i < |s| ==> IsSpace(s[i]) {
      NonSpaceOfSpaces(s[k..]);
    }
  }

  /** Trimming drops whitespace only. */
  lemma NonSpaceTrim(s: string)
    ensures NonSpace(Trim(s)) == NonSpace(s)
  {
    var a := TrimStart(s);
    NonSpaceSplit(s, |s| - |a|);
    NonSpaceSplit(a, |TrimEnd(a)|);
  }

  lemma NonSpaceTrimStart(s: string)
    ensures NonSpace(TrimStart(s)) == NonSpace(s)
  {
    NonSpaceSplit(s, |s| - |TrimStart(s)|);
  }

  /** The squeeze keeps every non-whitespace character, in order. */
  lemma {:induction false} NonSpaceSqueeze(s: string)
    ensures NonSpace(Squeeze(s)) == NonSpace(s)
    decreases |s|
  {
    if s != [] {
      if IsSpace(s[0]) {
        NonSpaceSqueeze(TrimStart(s));
        NonSpaceTrimStart(s);
        assert NonSpace([' '] + Squeeze(TrimStart(s))) == NonSpace(Squeeze(TrimStart(s)));
      } else {
        NonSpaceSqueeze(s[1..]);
        assert ([s[0]] + Squeeze(s[1..]))[1..] == Squeeze(s[1..]);
      }
    }
  }

  /** Collapsing keeps every non-whitespace character, in order: it only
      changes and removes whitespace. */
  lemma NonSpaceCollapse(s: string)
    ensures NonSpace(Collapse(s)) == NonSpace(s)
  {
    NonSpaceSqueeze(s);
    NonSpaceTrim(Squeeze(s));
  }

  lemma RenderFirst(t: string)
    ensures Render(Block(1, false, t)) == FirstHeader + ("\n" + t + "\n\n")
  {
    assert [Digit(1)] == "1";
  }

  /** With a first page, the text before clean-up starts with its header. */
  lemma RawStartsWithHeader(pages: seq<string>)
    requires 0 < |pages| <= MaxPages
    ensures FirstHeader <= RawText(pages)
  {
    var bs := Blocks(pages);
    var b := Block(1, false, pages[0]);
    assert bs == [b] + bs[1..];
    ConcatAppend([b], bs[1..]);
    assert Concat([b]) == Render(b) + Concat([]);
    RenderFirst(pages[0]);
  }

  lemma FirstHeaderNormal()
    ensures Normal(FirstHeader) && !IsSpace(FirstHeader[|FirstHeader| - 1])
  {
  }

  /** When there is a first page, the collapsed text starts with its header. */
  lemma CollapseStartsWithHeader(pages: seq<string>)
    requires 0 < |pages| <= MaxPages
    ensures FirstHeader <= Collapse(RawText(pages))
  {
    var raw := RawText(pages);
    RawStartsWithHeader(pages);
    var u := raw[|FirstHeader|..];
    assert raw == FirstHeader + u;
    FirstHeaderNormal();
    SqueezePrefix(FirstHeader, u);
    var q := FirstHeader + Squeeze(u);
    assert TrimStart(q) == q;
    TrimEndKeeps(FirstHeader, Squeeze(u));
  }

  lemma SentinelStart()
    ensures Sentinel[0] == 'N'
  {
  }

  /** The excerpt is the sentinel exactly when the collapsed text is shorter
      than `MinChars`; with no pages it is always the sentinel. */
  lemma ExcerptSentinel(pages: seq<string>)
    requires |pages| <= MaxPages
    ensures Excerpt(pages) == Sentinel <==> |Collapse(RawText(pages))| < MinChars
    ensures pages == [] ==> Excerpt(pages) == Sentinel
  {
    var c := Collapse(RawText(pages));
    if pages == [] {
      assert RawText(pages) == "";
      assert Squeeze("") == "";
    } else if |c| >= MinChars {
      CollapseStartsWithHeader(pages);
      assert Excerpt(pages) == FirstN(c, MaxChars);
      assert Excerpt(pages)[0] == c[0] == FirstHeader[0] == '-';
      SentinelStart();
    }
  }

  /** Outside the sentinel case the excerpt is a prefix of the collapsed
      text: no leading whitespace, no two adjacent whitespace characters,
      only plain spaces, and it starts with the page 1 header. */
  lemma ExcerptForm(pages: seq<string>)
    requires |pages| <= MaxPages
    requires |Collapse(RawText(pages))| >= MinChars
    ensures Excerpt(pages) <= Collapse(RawText(pages))
    ensures Normal(Excerpt(pages)) && !IsSpace(Excerpt(pages)[0])
    ensures pages != [] ==> FirstHeader <= Excerpt(pages)
  {
    var c := Collapse(RawText(pages));
    CollapseForm(RawText(pages));
    var r := Excerpt(pages);
    NormalSlice(c, 0, |r|);
    assert r == c[..|r|];
    if pages != [] {
      CollapseStartsWithHeader(pages);
    }
  }

  /** The blocks: with at most two pages, pages 1 and 2 only and no heavy
      block; with three or more, page 1, page 2 and then exactly one heavy
      block, which is the longest of pages 3 onwards, the earliest on ties. */
  lemma BlocksShape(pages: seq<string>)
    requires |pages| <= MaxPages
    ensures |pages| <= 2 ==> Blocks(pages) == seq(|pages|, i requires 0 <= i < |pages| => Block(i + 1, false, pages[i]))
    ensures |pages| >= 3 ==>
              |Blocks(pages)| == 3
              && Blocks(pages)[0] == Block(1, false, pages[0])
              && Blocks(pages)[1] == Block(2, false, pages[1])
              && exists k: nat :: IsHeaviest(pages, |pages|, k) && Blocks(pages)[2] == Block(k + 1, true, pages[k])
  {
    var h := HeaviestIn(pages, |pages|);
    if |pages| >= 3 {
      assert IsHeaviest(pages, |pages|, h.value);
    }
  }
}
