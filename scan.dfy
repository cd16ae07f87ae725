/** The pieces `parseGeminiResponse` shares between app.js and
    functions/index.js: the search for a `Label:` followed by `\s*`, the
    subject priority scan, the topics and summary blocks, and the clean-up of
    each piece. The regular expressions are written out as scanners. */
module ResponseScan {
  import opened Util
  import opened Strings

  datatype Subject = Physics | Chemistry | Maths | Biology | ComputerScience | Other

  function Name(s: Subject): string {
    match s
    case Physics => "Physics"
    case Chemistry => "Chemistry"
    case Maths => "Maths"
    case Biology => "Biology"
    case ComputerScience => "Computer Science"
    case Other => "Other"
  }

  /** `validSubjects`, in the order they are tried. */
  const Ranked: seq<Subject> := [Physics, Chemistry, Maths, Biology, ComputerScience]

  /** The position of a subject in `Ranked`; `Other` comes after all of them. */
  function Rank(s: Subject): (n: nat)
    ensures n <= |Ranked|
    ensures n < |Ranked| <==> s != Other
    ensures n < |Ranked| ==> Ranked[n] == s
  {
    match s
    case Physics => 0
    case Chemistry => 1
    case Maths => 2
    case Biology => 3
    case ComputerScience => 4
    case Other => 5
  }

  /** The name of subject `Ranked[i]` occurs in the lower-cased text. */
  predicate Mentions(lowered: string, i: nat)
    requires i < |Ranked|
  {
    Contains(lowered, Lower(Name(Ranked[i])))
  }

  /** The first subject from `Ranked[i..]` whose name occurs in `lowered`. */
  function FirstMentioned(lowered: string, i: nat): Subject
    requires i <= |Ranked|
    decreases |Ranked| - i
  {
    if i == |Ranked| then Other
    else if Mentions(lowered, i) then Ranked[i]
    else FirstMentioned(lowered, i + 1)
  }

  /** The subject chosen for the captured `Subject:` line. */
  function MatchSubject(detected: string): Subject {
    FirstMentioned(Lower(detected), 0)
  }

  lemma {:induction false} FirstMentionedSpec(lowered: string, i: nat)
    requires i <= |Ranked|
    ensures var s := FirstMentioned(lowered, i);
            (s == Other || (i <= Rank(s) && Mentions(lowered, Rank(s))))
            && forall j :: i <= j < Rank(s) ==> !Mentions(lowered, j)
    decreases |Ranked| - i
  {
    if i < |Ranked| && !Mentions(lowered, i) {
      FirstMentionedSpec(lowered, i + 1);
    }
  }

  /** The subject is `Other` or a subject whose name occurs in the detected
      text, and no subject ranked before it occurs there. */
  lemma MatchSubjectSpec(detected: string)
    ensures var s := MatchSubject(detected);
            (s == Other || Mentions(Lower(detected), Rank(s)))
            && forall j :: 0 <= j < Rank(s) ==> !Mentions(Lower(detected), j)
  {
    FirstMentionedSpec(Lower(detected), 0);
  }

  /** The `for` loop over `validSubjects` that stops at the first name the
      lower-cased detected text includes. */
  method DetectSubject(detected: string) returns (subject: Subject)
    ensures subject == MatchSubject(detected)
  {
    subject := Other;
    var lowered := Lower(detected);
    var i := 0;
    while i < |Ranked|
      invariant 0 <= i <= |Ranked|
      invariant FirstMentioned(lowered, 0) == FirstMentioned(lowered, i)
    {
      if Contains(lowered, Lower(Name(Ranked[i]))) {
        subject := Ranked[i];
        break;
      }
      i := i + 1;
    }
  }

  /** The capture may start at `k`: there is a character there, and it is not
      a line break unless any character is allowed (`[\s\S]+` rather than
      `[^\n]+`). */
  predicate CanStart(text: string, k: nat, anyChar: bool) {
    k < |text| && (anyChar || text[k] != '\n')
  }

  /** The greedy `\s*` giving back characters: the last position in
      `from .. q` where the capture can start. */
  function BackOff(text: string, from: nat, q: nat, anyChar: bool): (r: Option<nat>)
    requires from <= q
    ensures r.Some? ==> from <= r.value <= q && CanStart(text, r.value, anyChar)
                        && forall k :: r.value < k <= q ==> !CanStart(text, k, anyChar)
    ensures r.None? ==> forall k :: from <= k <= q ==> !CanStart(text, k, anyChar)
    decreases q - from
  {
    if CanStart(text, q, anyChar) then Some(q)
    else if q == from then None
    else BackOff(text, from, q - 1, anyChar)
  }

  /** Where the capture starts for a match of `<word>\s*` at `m`, if the
      capture can start at all. */
  function CaptureAt(text: string, word: string, m: nat, anyChar: bool): Option<nat>
    requires m + |word| <= |text|
  {
    BackOff(text, m + |word|, SkipSpaces(text, m + |word|), anyChar)
  }

  /** A successful match of the label at `m` whose capture starts at `q`. */
  predicate MatchesAt(text: string, word: string, m: nat, q: nat, anyChar: bool) {
    LabelAt(text, m, word) && CaptureAt(text, word, m, anyChar) == Some(q)
  }

  /** `text.match(/<word>\s*(...)/i)`: the start of the capture of the
      leftmost match at or after `p`. */
  function CaptureFrom(text: string, word: string, p: nat, anyChar: bool): (r: Option<nat>)
    requires |word| > 0 && p <= |text|
    ensures r.Some? ==> exists m :: p <= m && MatchesAt(text, word, m, r.value, anyChar)
    ensures (forall m :: p <= m ==> !LabelAt(text, m, word)) ==> r.None?
    decreases |text| - p
  {
    if p + |word| > |text| then None
    else if LabelAt(text, p, word) && CaptureAt(text, word, p, anyChar).Some? then
      assert MatchesAt(text, word, p, CaptureAt(text, word, p, anyChar).value, anyChar);
      CaptureAt(text, word, p, anyChar)
    else CaptureFrom(text, word, p + 1, anyChar)
  }

  /** A capture start is after the label and the whitespace behind it. */
  lemma MatchShape(text: string, word: string, m: nat, q: nat, anyChar: bool)
    requires MatchesAt(text, word, m, q, anyChar)
    ensures m + |word| <= q && CanStart(text, q, anyChar)
    ensures forall k :: m + |word| <= k < q ==> IsSpace(text[k])
  {
  }

  /** The label occurs at `m`, ignoring case, and a capture can follow it. */
  predicate Admits(text: string, word: string, m: nat, anyChar: bool) {
    LabelAt(text, m, word) && CaptureAt(text, word, m, anyChar).Some?
  }

  /** Before the first occurrence that admits a capture the search moves on. */
  lemma CaptureFromStep(text: string, word: string, p: nat, anyChar: bool)
    requires |word| > 0 && p < |text| && !Admits(text, word, p, anyChar)
    ensures CaptureFrom(text, word, p, anyChar) == CaptureFrom(text, word, p + 1, anyChar)
  {
  }

  /** There is no match exactly when no occurrence of the label at or after
      `p` admits a capture. */
  lemma {:induction false} CaptureFromNone(text: string, word: string, p: nat, anyChar: bool)
    requires |word| > 0 && p <= |text|
    ensures CaptureFrom(text, word, p, anyChar).None? <==> forall m :: p <= m ==> !Admits(text, word, m, anyChar)
    decreases |text| - p
  {
    if p + |word| > |text| {
      forall m | p <= m ensures !Admits(text, word, m, anyChar) {
      }
    } else if !Admits(text, word, p, anyChar) {
      CaptureFromStep(text, word, p, anyChar);
      CaptureFromNone(text, word, p + 1, anyChar);
    }
  }

  /** The match is the leftmost one: its capture belongs to the first
      occurrence of the label at or after `p` that admits a capture. */
  lemma {:induction false} CaptureFromLeftmost(text: string, word: string, p: nat, anyChar: bool)
    requires |word| > 0 && p <= |text| && CaptureFrom(text, word, p, anyChar).Some?
    ensures exists m :: p <= m && Admits(text, word, m, anyChar)
                        && CaptureAt(text, word, m, anyChar) == CaptureFrom(text, word, p, anyChar)
                        && forall m' :: p <= m' < m ==> !Admits(text, word, m', anyChar)
    decreases |text| - p
  {
    var r := CaptureFrom(text, word, p, anyChar);
    if Admits(text, word, p, anyChar) {
      assert CaptureAt(text, word, p, anyChar) == r;
    } else {
      CaptureFromStep(text, word, p, anyChar);
      CaptureFromLeftmost(text, word, p + 1, anyChar);
      var m :| p + 1 <= m && Admits(text, word, m, anyChar)
               && CaptureAt(text, word, m, anyChar) == r
               && forall m' :: p + 1 <= m' < m ==> !Admits(text, word, m', anyChar);
      assert forall m' :: p <= m' < m ==> !Admits(text, word, m', anyChar);
    }
  }

  /** The rest of the first `Subject:` line that has one (`[^\n]+`). */
  function SubjectLine(text: string): Option<string> {
    match CaptureFrom(text, "subject:", 0, false)
    case Some(q) => Some(text[q..LineEnd(text, q)])
    case None => None
  }

  /** The subject `parseGeminiResponse` records: `Other` unless the captured
      line, trimmed, mentions one of `Ranked`. */
  function SubjectOf(text: string): Subject {
    match SubjectLine(text)
    case Some(d) => MatchSubject(Trim(d))
    case None => Other
  }

  /** The captured subject line is not empty and holds no line break. */
  lemma SubjectLineShape(text: string)
    requires SubjectLine(text).Some?
    ensures |SubjectLine(text).value| > 0 && '\n' !in SubjectLine(text).value
  {
    var q := CaptureFrom(text, "subject:", 0, false).value;
    var m :| MatchesAt(text, "subject:", m, q, false);
    MatchShape(text, "subject:", m, q, false);
    var d := text[q..LineEnd(text, q)];
    assert forall k :: 0 <= k < |d| ==> d[k] == text[q + k];
  }

  /** The captured line belongs to the first `Subject:` that admits a
      capture and runs to the end of its line; there is none exactly when no
      `Subject:` admits one. */
  lemma SubjectLineSpec(text: string)
    ensures SubjectLine(text).None? <==> forall m :: !Admits(text, "subject:", m, false)
    ensures SubjectLine(text).Some? ==>
              exists m :: Admits(text, "subject:", m, false)
                          && (forall m' :: m' < m ==> !Admits(text, "subject:", m', false))
                          && var q := CaptureAt(text, "subject:", m, false).value;
                             SubjectLine(text).value == text[q..LineEnd(text, q)]
  {
    CaptureFromNone(text, "subject:", 0, false);
    if SubjectLine(text).Some? {
      CaptureFromLeftmost(text, "subject:", 0, false);
    }
  }

  /** Without a captured `Subject:` line the subject is `Other`. With one,
      the line is non-empty and has no line break, and the subject is the
      first of `Ranked` that its trimmed, lower-cased form mentions; it is
      `Other` exactly when that form mentions none of them. */
  lemma SubjectSpec(text: string)
    ensures (forall m :: !LabelAt(text, m, "subject:")) ==> SubjectOf(text) == Other
    ensures SubjectLine(text).None? ==> SubjectOf(text) == Other
    ensures SubjectLine(text).Some? ==>
              var d := SubjectLine(text).value;
              var s := SubjectOf(text);
              |d| > 0 && '\n' !in d
              && (s == Other || Mentions(Lower(Trim(d)), Rank(s)))
              && (forall j :: 0 <= j < Rank(s) ==> !Mentions(Lower(Trim(d)), j))
              && (s == Other <==> forall j :: 0 <= j < |Ranked| ==> !Mentions(Lower(Trim(d)), j))
  {
    if SubjectLine(text).Some? {
      var d := SubjectLine(text).value;
      SubjectLineShape(text);
      MatchSubjectSpec(Trim(d));
    }
  }

  /** The end of the topics block, given the end `r` of one of its lines: it
      goes on over every following line that is not empty and does not start
      with `Summary:` (`(?:\n(?!Summary:)[^\n]+)*`). */
  function BlockEnd(text: string, r: nat): (e: nat)
    requires r <= |text| && (r == |text| || text[r] == '\n')
    ensures r <= e <= |text| && (e == |text| || text[e] == '\n')
    ensures forall k :: r <= k < e && text[k] == '\n' ==>
              k + 1 < |text| && text[k + 1] != '\n' && !LabelAt(text, k + 1, "summary:")
    ensures e == |text| || e + 1 == |text| || text[e + 1] == '\n' || LabelAt(text, e + 1, "summary:")
    decreases |text| - r
  {
    if r + 1 < |text| && text[r + 1] != '\n' && !LabelAt(text, r + 1, "summary:") then
      BlockEnd(text, LineEnd(text, r + 1))
    else r
  }

  /** The capture of `/Topics:\s*([^\n]+(?:\n(?!Summary:)[^\n]+)*)/i`. */
  function TopicsText(text: string): Option<string> {
    match CaptureFrom(text, "topics:", 0, false)
    case Some(q) => Some(text[q..BlockEnd(text, LineEnd(text, q))])
    case None => None
  }

  /** The capture of `/Summary:\s*([\s\S]+)/i`: everything to the end. */
  function SummaryText(text: string): Option<string> {
    match CaptureFrom(text, "summary:", 0, true)
    case Some(q) => Some(text[q..])
    case None => None
  }

  /** `replace(/^[<bullets>]\s*\/, '')`. */
  function StripBullet(t: string, bullets: set<char>): string {
    if t != [] && t[0] in bullets then TrimStart(t[1..]) else t
  }

  /** `replace(/^\d+\.\s*\/, '')`. */
  function StripNumber(t: string): string {
    var k := SkipDigits(t, 0);
    if 0 < k < |t| && t[k] == '.' then TrimStart(t[k + 1..]) else t
  }

  /** `t.trim()` followed by both prefix removals. */
  function Clean(t: string, bullets: set<char>): string {
    StripNumber(StripBullet(Trim(t), bullets))
  }

  function CleanAll(pieces: seq<string>, bullets: set<char>): seq<string> {
    Map(pieces, (t: string) => Clean(t, bullets))
  }

  /** `u` is a suffix of `t` that starts and ends with non-space
      characters when not empty. */
  predicate TrimmedSuffix(u: string, t: string) {
    |u| <= |t| && u == t[|t| - |u|..] && (u == [] || (!IsSpace(u[0]) && !IsSpace(u[|u| - 1])))
  }

  lemma StripBulletSpec(t: string, bullets: set<char>)
    requires TrimmedSuffix(t, t)
    ensures TrimmedSuffix(StripBullet(t, bullets), t)
  {
    var b := StripBullet(t, bullets);
    if b != [] {
      assert b[|b| - 1] == t[|t| - 1];
    }
  }

  lemma StripNumberSpec(t: string)
    requires TrimmedSuffix(t, t)
    ensures TrimmedSuffix(StripNumber(t), t)
  {
    var b := StripNumber(t);
    if b != [] {
      assert b[|b| - 1] == t[|t| - 1];
    }
  }

  lemma TrimSpec(t: string)
    ensures TrimmedSuffix(Trim(t), Trim(t))
  {
    var a := TrimStart(t);
    var s := Trim(t);
    assert s == [] || s[0] == a[0];
  }

  /** A cleaned piece is what is left of the trimmed piece after at most a
      bullet and a number are cut from its front: a suffix of it with no
      whitespace at either end, and the trimmed piece itself when that starts
      with neither a bullet nor a digit. */
  lemma CleanSpec(t: string, bullets: set<char>)
    ensures TrimmedSuffix(Clean(t, bullets), Trim(t))
    ensures var s := Trim(t); s == [] || (s[0] !in bullets && !IsDigit(s[0])) ==> Clean(t, bullets) == s
  {
    var s := Trim(t);
    TrimSpec(t);
    StripBulletSpec(s, bullets);
    var b := StripBullet(s, bullets);
    assert TrimmedSuffix(b, b);
    StripNumberSpec(b);
    SuffixTrans(StripNumber(b), b, s);
  }

  lemma SuffixTrans(c: string, b: string, s: string)
    requires TrimmedSuffix(c, b) && TrimmedSuffix(b, s)
    ensures TrimmedSuffix(c, s)
  {
    assert s[|s| - |b|..][|b| - |c|..] == s[|s| - |c|..];
  }

  /** `s[..j]` is a whole `[<bullets>]\s*` prefix: a bullet, then
      whitespace. */
  predicate BulletEnd(s: string, bullets: set<char>, j: nat) {
    0 < j <= |s| && s[0] in bullets && forall i :: 1 <= i < j ==> IsSpace(s[i])
  }

  /** `\d+\.` matches at the front of `s`, with the dot at `k`. */
  predicate NumberAt(s: string, k: nat) {
    0 < k < |s| && (forall i :: 0 <= i < k ==> IsDigit(s[i])) && s[k] == '.'
  }

  /** `s[..j]` is a whole `\d+\.\s*` prefix: digits, a dot, then
      whitespace. */
  predicate NumberEnd(s: string, j: nat) {
    j <= |s| && exists k :: 0 < k < j && NumberAt(s, k) && forall i :: k < i < j ==> IsSpace(s[i])
  }

  /** Trimming the start of `s[k..]` drops the whitespace run that starts at
      `k`. */
  lemma TrimStartFrom(s: string, k: nat)
    requires k <= |s|
    ensures var r := TrimStart(s[k..]);
            k + |r| <= |s| && r == s[|s| - |r|..]
            && (forall i :: k <= i < |s| - |r| ==> IsSpace(s[i]))
            && (|r| == 0 || !IsSpace(s[|s| - |r|]))
  {
    var t := s[k..];
    var r := TrimStart(t);
    assert t[|t| - |r|..] == s[|s| - |r|..];
    forall i | k <= i < |s| - |r| ensures IsSpace(s[i]) {
      assert s[i] == t[i - k];
    }
  }

  /** Where the bullet replacement cuts `s`: after a leading bullet and the
      whole whitespace run after it, and at 0 when there is no bullet. */
  lemma BulletCut(s: string, bullets: set<char>) returns (j: nat)
    ensures j <= |s| && StripBullet(s, bullets) == s[j..]
    ensures j == 0 <==> (s == [] || s[0] !in bullets)
    ensures j == 0 || (BulletEnd(s, bullets, j) && (j == |s| || !IsSpace(s[j])))
  {
    j := 0;
    if s != [] && s[0] in bullets {
      TrimStartFrom(s, 1);
      j := |s| - |StripBullet(s, bullets)|;
    }
  }

  /** `replace(/^[<bullets>]\s*\/, '')` removes exactly a leading bullet and
      the whole whitespace run after it, and nothing when there is no
      bullet. */
  lemma StripBulletExact(s: string, bullets: set<char>)
    ensures s == [] || s[0] !in bullets ==> StripBullet(s, bullets) == s
    ensures s != [] && s[0] in bullets ==>
              exists j: nat :: BulletEnd(s, bullets, j) && StripBullet(s, bullets) == s[j..]
                               && (j == |s| || !IsSpace(s[j]))
  {
    var j := BulletCut(s, bullets);
    assert s[0..] == s;
  }

  /** The dot of `\d+\.` can only be at the end of the leading digit run. */
  lemma NumberAtUnique(s: string, k: nat)
    requires NumberAt(s, k)
    ensures k == SkipDigits(s, 0)
  {
  }

  /** Where the number replacement cuts `s`: after a leading `digits.` and
      the whole whitespace run after it, and at 0 when there is none. */
  lemma NumberCut(s: string) returns (j: nat)
    ensures j <= |s| && StripNumber(s) == s[j..]
    ensures j == 0 <==> forall d :: 0 < d < |s| ==> !NumberAt(s, d)
    ensures j == 0 || (NumberEnd(s, j) && (j == |s| || !IsSpace(s[j])))
  {
    if NumberAt(s, SkipDigits(s, 0)) {
      j := NumberCutFound(s);
    } else {
      NumberCutNone(s);
      j := 0;
    }
  }

  lemma NumberCutFound(s: string) returns (j: nat)
    requires NumberAt(s, SkipDigits(s, 0))
    ensures 0 < j <= |s| && StripNumber(s) == s[j..]
    ensures NumberEnd(s, j) && (j == |s| || !IsSpace(s[j]))
  {
    var k := SkipDigits(s, 0);
    var r := TrimStart(s[k + 1..]);
    assert StripNumber(s) == r;
    TrimStartFrom(s, k + 1);
    j := |s| - |r|;
    assert StripNumber(s) == s[j..];
    assert j == |s| || !IsSpace(s[j]);
    assert NumberEnd(s, j) by {
      assert NumberAt(s, k) && k < j && forall i :: k < i < j ==> IsSpace(s[i]);
    }
  }

  lemma NumberCutNone(s: string)
    requires !NumberAt(s, SkipDigits(s, 0))
    ensures StripNumber(s) == s[0..]
    ensures forall d :: 0 < d < |s| ==> !NumberAt(s, d)
  {
    forall d | 0 < d < |s| ensures !NumberAt(s, d) {
      if NumberAt(s, d) {
        NumberAtUnique(s, d);
      }
    }
  }

  /** `replace(/^\d+\.\s*\/, '')` removes exactly a leading `digits.` and
      the whole whitespace run after it, and nothing when there is none. */
  lemma StripNumberExact(s: string)
    ensures (forall k :: !NumberAt(s, k)) ==> StripNumber(s) == s
    ensures (exists k :: NumberAt(s, k)) ==>
              exists j: nat :: NumberEnd(s, j) && StripNumber(s) == s[j..] && (j == |s| || !IsSpace(s[j]))
  {
    var j := NumberCut(s);
    assert s[0..] == s;
  }

  /** `s[k..]` is what is left of `s` after its leading bullet with the
      whitespace after it, which ends at `j` (0 when there is none), and then
      the leading `digits.` of the rest with the whitespace after it, which
      ends at `k` (`j` when there is none). */
  predicate Decomposes(s: string, bullets: set<char>, j: nat, k: nat) {
    j <= k <= |s|
    && (j == 0 <==> (s == [] || s[0] !in bullets))
    && (j == 0 || BulletEnd(s, bullets, j))
    && (k == j <==> forall d :: 0 < d < |s| - j ==> !NumberAt(s[j..], d))
    && (k == j || NumberEnd(s[j..], k - j))
  }

  /** For a text without leading whitespace, the two removals cut exactly a
      leading bullet with its whitespace, if any, and then exactly a leading
      `digits.` with its whitespace, if what remains has one. */
  lemma StripBothExact(s: string, bullets: set<char>)
    requires s == [] || !IsSpace(s[0])
    ensures var c := StripNumber(StripBullet(s, bullets));
            (c == [] || !IsSpace(c[0]))
            && exists j: nat, k: nat :: Decomposes(s, bullets, j, k) && c == s[k..]
  {
    var j, k := BothCut(s, bullets);
  }

  /** Where the two removals cut `s`. */
  lemma BothCut(s: string, bullets: set<char>) returns (j: nat, k: nat)
    requires s == [] || !IsSpace(s[0])
    ensures Decomposes(s, bullets, j, k)
    ensures StripNumber(StripBullet(s, bullets)) == s[k..]
    ensures k == |s| || !IsSpace(s[k])
  {
    var u := StripBullet(s, bullets);
    j := BulletCut(s, bullets);
    var m := NumberCut(u);
    k := j + m;
    assert s[j..][m..] == s[k..];
    assert k == |s| || !IsSpace(s[k]) by {
      if m == 0 && j < |s| {
        assert s[k] == s[j];
      }
    }
  }

  /** The cleaned piece is the trimmed piece without exactly its leading
      bullet (and the whitespace after it), if it has one, and then without
      exactly its leading `digits.` (and the whitespace after it), if what
      remains has one. */
  lemma CleanExact(t: string, bullets: set<char>)
    ensures var s := Trim(t);
            var c := Clean(t, bullets);
            (c == [] || !IsSpace(c[0]))
            && exists j: nat, k: nat :: Decomposes(s, bullets, j, k) && c == s[k..]
  {
    TrimSpec(t);
    StripBothExact(Trim(t), bullets);
  }

  /** Kept topics are 1 to 49 characters long. */
  predicate TopicSized(t: string) {
    0 < |t| < 50
  }

  /** Kept summary lines are 11 to 199 characters long. */
  predicate SummarySized(t: string) {
    10 < |t| < 200
  }

  /** The topic pieces: the block split on commas and line breaks. */
  function TopicPieces(block: string): seq<string> {
    Split(block, {',', '\n'})
  }

  /** The summary pieces: the block split on line breaks. */
  function SummaryPieces(block: string): seq<string> {
    Split(block, {'\n'})
  }

  function TopicsOf(text: string, bullets: set<char>): seq<string> {
    match TopicsText(text)
    case Some(b) => FirstN(Filter(CleanAll(TopicPieces(b), bullets), TopicSized), 5)
    case None => []
  }

  function SummaryOf(text: string, bullets: set<char>): seq<string> {
    match SummaryText(text)
    case Some(b) => FirstN(Filter(CleanAll(SummaryPieces(b), bullets), SummarySized), 5)
    case None => []
  }

  /** Topics: none without a `Topics:` label; otherwise at most five, each 1
      to 49 characters: the first five cleaned pieces of that size, in
      order and with repeats, or all of them when there are fewer. */
  lemma TopicsSpec(text: string, bullets: set<char>)
    ensures (forall m :: !LabelAt(text, m, "topics:")) ==> TopicsOf(text, bullets) == []
    ensures var r := TopicsOf(text, bullets);
            |r| <= 5 && forall t :: t in r ==> TopicSized(t)
    ensures TopicsText(text).Some? ==>
              var cleaned := CleanAll(TopicPieces(TopicsText(text).value), bullets);
              var r := TopicsOf(text, bullets);
              IsSubseq(r, cleaned) && (|r| < 5 ==> forall t :: t in cleaned && TopicSized(t) ==> t in r)
    ensures TopicsText(text).Some? ==>
              var cleaned := CleanAll(TopicPieces(TopicsText(text).value), bullets);
              var r := TopicsOf(text, bullets);
              exists n :: 0 <= n <= |cleaned| && r == Filter(cleaned[..n], TopicSized)
                          && (|r| < 5 ==> n == |cleaned|)
  {
    if TopicsText(text).Some? {
      FirstNFiltered(CleanAll(TopicPieces(TopicsText(text).value), bullets), TopicSized, 5);
      FirstNFilteredPrefix(CleanAll(TopicPieces(TopicsText(text).value), bullets), TopicSized, 5);
    }
  }

  /** Summary: none without a `Summary:` label; otherwise at most five lines,
      each 11 to 199 characters: the first five cleaned lines of that size,
      in order and with repeats, or all of them when there are fewer. */
  lemma SummarySpec(text: string, bullets: set<char>)
    ensures (forall m :: !LabelAt(text, m, "summary:")) ==> SummaryOf(text, bullets) == []
    ensures var r := SummaryOf(text, bullets);
            |r| <= 5 && forall t :: t in r ==> SummarySized(t)
    ensures SummaryText(text).Some? ==>
              var cleaned := CleanAll(SummaryPieces(SummaryText(text).value), bullets);
              var r := SummaryOf(text, bullets);
              IsSubseq(r, cleaned) && (|r| < 5 ==> forall t :: t in cleaned && SummarySized(t) ==> t in r)
    ensures SummaryText(text).Some? ==>
              var cleaned := CleanAll(SummaryPieces(SummaryText(text).value), bullets);
              var r := SummaryOf(text, bullets);
              exists n :: 0 <= n <= |cleaned| && r == Filter(cleaned[..n], SummarySized)
                          && (|r| < 5 ==> n == |cleaned|)
  {
    if SummaryText(text).Some? {
      FirstNFiltered(CleanAll(SummaryPieces(SummaryText(text).value), bullets), SummarySized, 5);
      FirstNFilteredPrefix(CleanAll(SummaryPieces(SummaryText(text).value), bullets), SummarySized, 5);
    }
  }
}
