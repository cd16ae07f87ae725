/** `parseGeminiResponse` of app.js: subject, topics and summary as in
    `ResponseScan` with app.js's own bullet class, plus the practice
    questions. */
module AppParser {
  import opened Util
  import opened Strings
  import opened ResponseScan

  /** The bullet class of app.js as written, `[-*â€¢]`: `-`, `*` and the
      three characters U+00E2, U+20AC and U+00A2. */
  const Bullets: set<char> := {'-', '*', '\U{E2}', '\U{20AC}', '\U{A2}'}

  /** The bullet class evidently meant, `[-*•]`: the UTF-8 bytes of U+2022
      read back as Windows-1252 give the three characters above. */
  const IntendedBullets: set<char> := {'-', '*', '\U{2022}'}

  datatype Difficulty = Easy | Medium | Hard

  datatype Question = Question(question: string, options: seq<string>, correctAnswer: string, difficulty: Difficulty)

  datatype Analysis = Analysis(subject: Subject, topics: seq<string>, summary: seq<string>, questions: seq<Question>)

  /** The capture of `/Questions:\s*([\s\S]+)/i`: everything to the end. */
  function QuestionsText(text: string): Option<string> {
    match CaptureFrom(text, "questions:", 0, true)
    case Some(q) => Some(text[q..])
    case None => None
  }

  /** A separator `\n\d+\.\s+` starts at `q`: a line break, one or more
      digits, a dot, and at least one whitespace character. */
  ghost predicate SeparatorStart(c: string, q: nat) {
    q < |c| && c[q] == '\n'
    && exists k :: q + 1 < k < |c| - 1 && (forall x :: q + 1 <= x < k ==> IsDigit(c[x]))
                   && c[k] == '.' && IsSpace(c[k + 1])
  }

  /** The separator at `q`, and where it ends. */
  function SeparatorAt(c: string, q: nat): (e: Option<nat>)
    requires q <= |c|
    ensures e.Some? ==> q < e.value <= |c|
  {
    if q < |c| && c[q] == '\n' then
      var k := SkipDigits(c, q + 1);
      if q + 1 < k < |c| && c[k] == '.' then
        var e := SkipSpaces(c, k + 1);
        if k + 1 < e then Some(e) else None
      else None
    else None
  }

  /** A separator is found at `q` exactly when one starts there, and it ends
      where the whitespace run after its dot ends (`\s+` is greedy). */
  lemma SeparatorAtSpec(c: string, q: nat)
    requires q <= |c|
    ensures SeparatorAt(c, q).Some? <==> SeparatorStart(c, q)
    ensures SeparatorAt(c, q).Some? ==>
              var e := SeparatorAt(c, q).value;
              exists k :: q + 1 < k && k + 1 < e && (forall x :: q + 1 <= x < k ==> IsDigit(c[x]))
                          && c[k] == '.' && (forall x :: k < x < e ==> IsSpace(c[x]))
                          && (e == |c| || !IsSpace(c[e]))
  {
    if q < |c| && c[q] == '\n' {
      var k := SkipDigits(c, q + 1);
      if SeparatorStart(c, q) {
        var k' :| q + 1 < k' < |c| - 1 && (forall x :: q + 1 <= x < k' ==> IsDigit(c[x]))
                  && c[k'] == '.' && IsSpace(c[k' + 1]);
        assert k' == k;
      }
    }
  }

  /** `split(/\n\d+\.\s+/)`, with the current piece starting at `p` and the
      search at `q`. */
  function SplitBlocksFrom(c: string, p: nat, q: nat): (blocks: seq<string>)
    requires p <= q <= |c|
    ensures |blocks| >= 1
    decreases |c| - q
  {
    if q == |c| then [c[p..]]
    else
      match SeparatorAt(c, q)
      case Some(e) => [c[p..q]] + SplitBlocksFrom(c, e, e)
      case None => SplitBlocksFrom(c, p, q + 1)
  }

  function SplitBlocks(c: string): (blocks: seq<string>)
    ensures |blocks| >= 1
  {
    SplitBlocksFrom(c, 0, 0)
  }

  /** The piece under way ends at the first separator start `i` from `q`
      on, and the split goes on with a new piece where that separator ends. */
  lemma {:induction false} SplitBlocksFromCut(c: string, p: nat, q: nat, i: nat)
    requires p <= q <= i < |c| && SeparatorStart(c, i)
    requires forall j :: q <= j < i ==> !SeparatorStart(c, j)
    ensures |SplitBlocksFrom(c, p, q)| >= 2 && SplitBlocksFrom(c, p, q)[0] == c[p..i]
    ensures SeparatorAt(c, i).Some?
    ensures var e := SeparatorAt(c, i).value;
            SplitBlocksFrom(c, p, q) == [c[p..i]] + SplitBlocksFrom(c, e, e)
    decreases i - q
  {
    SeparatorAtSpec(c, q);
    if q < i {
      SplitBlocksFromCut(c, p, q + 1, i);
    }
  }

  /** Without a separator start from `q` on, the piece runs to the end. */
  lemma {:induction false} SplitBlocksFromWhole(c: string, p: nat, q: nat)
    requires p <= q <= |c|
    requires forall j :: q <= j < |c| ==> !SeparatorStart(c, j)
    ensures SplitBlocksFrom(c, p, q) == [c[p..]]
    decreases |c| - q
  {
    if q < |c| {
      SeparatorAtSpec(c, q);
      SplitBlocksFromWhole(c, p, q + 1);
    }
  }

  /** A separator inside a piece of the text is a separator of the text. */
  lemma SeparatorInSlice(c: string, p: nat, i: nat, x: nat)
    requires p <= i <= |c| && SeparatorStart(c[p..i], x)
    ensures p + x < i && SeparatorStart(c, p + x)
  {
    var b := c[p..i];
    var k :| x + 1 < k < |b| - 1 && (forall y :: x + 1 <= y < k ==> IsDigit(b[y]))
             && b[k] == '.' && IsSpace(b[k + 1]);
    assert forall y :: p + x + 1 <= y < p + k ==> c[y] == b[y - p];
    assert c[p + k] == '.' && IsSpace(c[p + k + 1]);
  }

  /** No block holds a separator: the split cuts at every one. */
  lemma {:induction false} SplitBlocksFromFree(c: string, p: nat, q: nat)
    requires p <= q <= |c| && forall j :: p <= j < q ==> !SeparatorStart(c, j)
    ensures forall b :: b in SplitBlocksFrom(c, p, q) ==> forall x :: !SeparatorStart(b, x)
    decreases |c| - q
  {
    if q == |c| {
      assert c[p..] == c[p..|c|];
      forall x | SeparatorStart(c[p..], x) ensures false {
        SeparatorInSlice(c, p, |c|, x);
      }
    } else {
      SeparatorAtSpec(c, q);
      if SeparatorStart(c, q) {
        var e := SeparatorAt(c, q).value;
        forall x | SeparatorStart(c[p..q], x) ensures false {
          SeparatorInSlice(c, p, q, x);
        }
        SplitBlocksFromFree(c, e, e);
      } else {
        SplitBlocksFromFree(c, p, q + 1);
      }
    }
  }

  /** The question blocks. The first is the text before the first separator,
      or all of it when there is none, so a `1. ` right after `Questions:`
      (which no line break precedes) stays at the start of the first
      question; the rest are the split of the text after that separator.
      No block holds a separator. */
  lemma SplitBlocksSpec(c: string)
    ensures forall i: nat :: SeparatorStart(c, i) && (forall j :: 0 <= j < i ==> !SeparatorStart(c, j)) ==>
              |SplitBlocks(c)| >= 2 && SplitBlocks(c)[0] == c[..i]
              && SeparatorAt(c, i).Some?
              && SplitBlocks(c) == [c[..i]] + SplitBlocksFrom(c, SeparatorAt(c, i).value, SeparatorAt(c, i).value)
    ensures (forall j :: 0 <= j < |c| ==> !SeparatorStart(c, j)) ==> SplitBlocks(c) == [c]
    ensures c != [] && c[0] != '\n' ==> SplitBlocks(c)[0] != [] && SplitBlocks(c)[0][0] == c[0]
    ensures forall b :: b in SplitBlocks(c) ==> forall x :: !SeparatorStart(b, x)
  {
    SplitBlocksFirst(c);
    if forall j :: 0 <= j < |c| ==> !SeparatorStart(c, j) {
      SplitBlocksFromWhole(c, 0, 0);
      assert c[0..] == c;
    }
    SplitBlocksFromFree(c, 0, 0);
    SplitBlocksHead(c);
  }

  lemma SplitBlocksFirst(c: string)
    ensures forall i: nat :: SeparatorStart(c, i) && (forall j :: 0 <= j < i ==> !SeparatorStart(c, j)) ==>
              |SplitBlocks(c)| >= 2 && SplitBlocks(c)[0] == c[..i]
              && SeparatorAt(c, i).Some?
              && SplitBlocks(c) == [c[..i]] + SplitBlocksFrom(c, SeparatorAt(c, i).value, SeparatorAt(c, i).value)
  {
    forall i: nat | SeparatorStart(c, i) && (forall j :: 0 <= j < i ==> !SeparatorStart(c, j))
      ensures |SplitBlocks(c)| >= 2 && SplitBlocks(c)[0] == c[..i]
              && SeparatorAt(c, i).Some?
              && SplitBlocks(c) == [c[..i]] + SplitBlocksFrom(c, SeparatorAt(c, i).value, SeparatorAt(c, i).value)
    {
      SplitBlocksFromCut(c, 0, 0, i);
    }
  }

  /** On `"a\n1. b"` the split gives the two blocks `a` and `b`. */
  lemma SplitBlocksExample()
    ensures SplitBlocks("a\n1. b") == ["a", "b"]
  {
    var c := "a\n1. b";
    assert SeparatorStart(c, 1) by {
      assert 1 + 1 < 3 < |c| - 1 && IsDigit(c[2]) && c[3] == '.' && IsSpace(c[4]);
    }
    assert !SeparatorStart(c, 0);
    SplitBlocksFromCut(c, 0, 0, 1);
    assert SeparatorAt(c, 1) == Some(5);
    assert !SeparatorStart(c, 5);
    SplitBlocksFromWhole(c, 5, 5);
    assert c[0..1] == "a" && c[5..] == "b";
  }

  lemma SplitBlocksHead(c: string)
    ensures c != [] && c[0] != '\n' ==> SplitBlocks(c)[0] != [] && SplitBlocks(c)[0][0] == c[0]
  {
    if c != [] && c[0] != '\n' {
      assert SeparatorAt(c, 0).None?;
      assert SplitBlocks(c) == SplitBlocksFrom(c, 0, 1);
      SplitFirstNonEmpty(c, 0, 1);
    }
  }

  /** The first block reaches at least up to the search position. */
  lemma {:induction false} SplitFirstNonEmpty(c: string, p: nat, q: nat)
    requires p <= q <= |c|
    ensures exists j :: q <= j <= |c| && SplitBlocksFrom(c, p, q)[0] == c[p..j]
    decreases |c| - q
  {
    if q == |c| {
      assert SplitBlocksFrom(c, p, q)[0] == c[p..|c|];
    } else if SeparatorAt(c, q).Some? {
      assert SplitBlocksFrom(c, p, q)[0] == c[p..q];
    } else {
      SplitFirstNonEmpty(c, p, q + 1);
    }
  }

  /** `qBlock.split('\n').map(l => l.trim()).filter(l => l.length > 0)`. */
  function BlockLines(block: string): seq<string> {
    Filter(Map(Split(block, {'\n'}), Trim), NotEmpty)
  }

  predicate NotEmpty(l: string) {
    l != []
  }

  /** Trimming a trimmed text changes nothing. */
  lemma TrimIdempotent(s: string)
    ensures Trim(Trim(s)) == Trim(s)
  {
    var a := TrimStart(s);
    var r := TrimEnd(a);
    assert r == [] || r[0] == a[0];
    assert TrimStart(r) == r;
  }

  /** The lines of a block are non-empty and trimmed. */
  lemma BlockLinesTrimmed(block: string)
    ensures forall l :: l in BlockLines(block) ==> l != [] && l == Trim(l)
  {
    var trimmed := Map(Split(block, {'\n'}), Trim);
    forall l | l in BlockLines(block) ensures l != [] && l == Trim(l) {
      assert l in trimmed;
      var i :| 0 <= i < |trimmed| && trimmed[i] == l;
      TrimIdempotent(Split(block, {'\n'})[i]);
    }
  }

  /** `l.toLowerCase().startsWith('difficulty:')`. */
  predicate IsDifficultyLine(l: string) {
    "difficulty:" <= Lower(l)
  }

  /** `l.toUpperCase().startsWith('ANSWER:')`. */
  predicate IsAnswerLine(l: string) {
    "ANSWER:" <= Upper(l)
  }

  /** `/^[A-D]\)/i.test(l)`. */
  predicate IsOptionLine(l: string) {
    |l| >= 2 && ('A' <= l[0] <= 'D' || 'a' <= l[0] <= 'd') && l[1] == ')'
  }

  /** The `filter` condition for options, with its two extra guards. */
  predicate IsOptionEntry(l: string) {
    IsOptionLine(l) && !IsAnswerLine(l) && !IsDifficultyLine(l)
  }

  /** The two extra guards never reject a line that starts like an option. */
  lemma OptionGuardsRedundant(l: string)
    requires IsOptionLine(l)
    ensures IsOptionEntry(l)
  {
    assert Upper(l)[1] == ')' != "ANSWER:"[1];
    assert Lower(l)[1] == ')' != "difficulty:"[1];
  }

  function Word(d: Difficulty): string {
    match d
    case Easy => "easy"
    case Medium => "medium"
    case Hard => "hard"
  }

  /** The difficulty word at `e`, ignoring case. */
  function WordAt(l: string, e: nat): (r: Option<Difficulty>)
    ensures r.Some? ==> LabelAt(l, e, Word(r.value))
    ensures r.None? ==> forall d :: !LabelAt(l, e, Word(d))
  {
    if LabelAt(l, e, "easy") then Some(Easy)
    else if LabelAt(l, e, "medium") then Some(Medium)
    else if LabelAt(l, e, "hard") then Some(Hard)
    else None
  }

  /** `difficulty:` at `m`, then spaces and a difficulty word. */
  predicate DifficultyAt(l: string, m: nat) {
    LabelAt(l, m, "difficulty:") && WordAt(l, SkipSpaces(l, m + 11)).Some?
  }

  /** The first `difficulty:\s*(easy|medium|hard)` at or after `p`, ignoring
      case. */
  function DifficultyWordFrom(l: string, p: nat): Option<Difficulty>
    requires p <= |l|
    decreases |l| - p
  {
    if p + 11 > |l| then None
    else if DifficultyAt(l, p) then WordAt(l, SkipSpaces(l, p + 11))
    else DifficultyWordFrom(l, p + 1)
  }

  /** A word found follows some `difficulty:` and spaces, ignoring case; none
      is found when no such place has a difficulty word. Which place it is
      (the leftmost) is `DifficultyWordLeftmost`. */
  lemma {:induction false} DifficultyWordSpec(l: string, p: nat)
    requires p <= |l|
    ensures DifficultyWordFrom(l, p).Some? ==>
              exists m :: p <= m && LabelAt(l, m, "difficulty:")
                          && LabelAt(l, SkipSpaces(l, m + 11), Word(DifficultyWordFrom(l, p).value))
    ensures DifficultyWordFrom(l, p).None? ==>
              forall m, d :: p <= m && LabelAt(l, m, "difficulty:") ==> !LabelAt(l, SkipSpaces(l, m + 11), Word(d))
    decreases |l| - p
  {
    if p + 11 <= |l| {
      DifficultyWordSpec(l, p + 1);
      if DifficultyWordFrom(l, p).None? {
        forall m, d | p <= m && LabelAt(l, m, "difficulty:")
          ensures !LabelAt(l, SkipSpaces(l, m + 11), Word(d))
        {
          if m == p {
            assert WordAt(l, SkipSpaces(l, p + 11)).None?;
          }
        }
      }
    }
  }

  lemma DifficultyWordStep(l: string, p: nat)
    requires p < |l| && !DifficultyAt(l, p)
    ensures DifficultyWordFrom(l, p) == DifficultyWordFrom(l, p + 1)
  {
  }

  /** Nothing is found exactly when no `difficulty:` from `p` on is followed
      by spaces and a difficulty word. */
  lemma DifficultyWordNone(l: string, p: nat)
    requires p <= |l|
    ensures DifficultyWordFrom(l, p).None? <==> forall m :: p <= m ==> !DifficultyAt(l, m)
  {
    if DifficultyWordFrom(l, p).Some? {
      var m := DifficultyWordAt(l, p);
      assert DifficultyAt(l, m);
    } else {
      DifficultyWordNoneFrom(l, p);
    }
  }

  /** When nothing is found, no place from `p` on matches. */
  lemma {:induction false} DifficultyWordNoneFrom(l: string, p: nat)
    requires p <= |l| && DifficultyWordFrom(l, p).None?
    ensures forall m :: p <= m ==> !DifficultyAt(l, m)
    decreases |l| - p
  {
    if p + 11 > |l| {
      forall m | p <= m ensures !DifficultyAt(l, m) {
        assert !LabelAt(l, m, "difficulty:");
      }
    } else {
      assert !DifficultyAt(l, p);
      DifficultyWordStep(l, p);
      DifficultyWordNoneFrom(l, p + 1);
    }
  }

  /** The match is the leftmost one: the word found follows the first
      `difficulty:` from `p` on that is followed by a word. */
  lemma DifficultyWordLeftmost(l: string, p: nat)
    requires p <= |l| && DifficultyWordFrom(l, p).Some?
    ensures exists m :: p <= m && DifficultyAt(l, m)
                        && WordAt(l, SkipSpaces(l, m + 11)) == DifficultyWordFrom(l, p)
                        && forall m' :: p <= m' < m ==> !DifficultyAt(l, m')
  {
    var m := DifficultyWordAt(l, p);
  }

  /** The place of the match in `DifficultyWordLeftmost`. */
  lemma {:induction false} DifficultyWordAt(l: string, p: nat) returns (m: nat)
    requires p <= |l| && DifficultyWordFrom(l, p).Some?
    ensures p <= m && DifficultyAt(l, m)
    ensures WordAt(l, SkipSpaces(l, m + 11)) == DifficultyWordFrom(l, p)
    ensures forall m' :: p <= m' < m ==> !DifficultyAt(l, m')
    decreases |l| - p
  {
    if DifficultyAt(l, p) {
      m := p;
    } else {
      DifficultyWordStep(l, p);
      m := DifficultyWordAt(l, p + 1);
      assert forall m' :: p + 1 <= m' < m ==> !DifficultyAt(l, m');
    }
  }

  /** The difficulty of a question: from the first difficulty line when it
      names one, `Medium` otherwise. */
  function DifficultyOf(lines: seq<string>): Difficulty {
    match Find(lines, IsDifficultyLine)
    case Some(l) =>
      (match DifficultyWordFrom(l, 0)
       case Some(d) => d
       case None => Medium)
    case None => Medium
  }

  /** `answerLine.split(':')[1].trim().charAt(0).toUpperCase()`. */
  function AnswerLetter(l: string): (a: string)
    requires IsAnswerLine(l)
    ensures |a| <= 1
    ensures a != "" ==> a[0] == UpperChar(a[0])
  {
    assert UpperChar(l[6]) == Upper(l)[6] == ':';
    SplitHasSecond(l, {':'}, 6);
    var field := Trim(Split(l, {':'})[1]);
    if field == [] then "" else [UpperChar(field[0])]
  }

  /** `j` ends the text between the first and the second colon of an answer
      line (the first colon is the one of `ANSWER:`, at 6). */
  predicate AnswerFieldEnd(l: string, j: nat) {
    7 <= j <= |l| && (forall x :: 7 <= x < j ==> l[x] != ':') && (j == |l| || l[j] == ':')
  }

  /** The answer letter is the first character of the trimmed text between
      the first and the second colon, upper-cased; it is empty exactly when
      that text is blank. */
  lemma AnswerLetterSpec(l: string)
    requires IsAnswerLine(l)
    ensures exists j: nat :: AnswerFieldEnd(l, j)
                        && (AnswerLetter(l) == [] <==> Trim(l[7..j]) == [])
                        && (Trim(l[7..j]) != [] ==> AnswerLetter(l) == [UpperChar(Trim(l[7..j])[0])])
  {
    assert forall x :: 0 <= x < 7 ==> Upper(l)[x] == "ANSWER:"[x];
    assert l[6] == ':' by {
      assert UpperChar(l[6]) == ':';
    }
    forall x | 0 <= x < 6 ensures l[x] !in {':'} {
      assert UpperChar(l[x]) == "ANSWER:"[x] != ':';
    }
    SplitAfterFirst(l, {':'}, 6);
    var rest := l[7..];
    SplitFirstPiece(rest, {':'});
    var k :| 0 <= k <= |rest| && Split(rest, {':'})[0] == rest[..k]
             && (forall x :: 0 <= x < k ==> rest[x] !in {':'})
             && (k == |rest| || rest[k] in {':'});
    assert rest[..k] == l[7..7 + k];
    assert Split(l, {':'})[1] == l[7..7 + k];
    assert AnswerFieldEnd(l, 7 + k);
  }

  /** The answer of a question: from the first answer line, empty without one. */
  function AnswerOf(lines: seq<string>): string {
    match Find(lines, IsAnswerLine)
    case Some(l) => AnswerLetter(l)
    case None => ""
  }

  /** Without a difficulty line the difficulty is `Medium`; otherwise it is
      the word the first difficulty line names, `Medium` when it names none. */
  lemma DifficultyOfSpec(lines: seq<string>)
    ensures (forall l :: l in lines ==> !IsDifficultyLine(l)) ==> DifficultyOf(lines) == Medium
    ensures forall i :: 0 <= i < |lines| && IsDifficultyLine(lines[i]) && (forall j :: 0 <= j < i ==> !IsDifficultyLine(lines[j])) ==>
              DifficultyOf(lines) == if DifficultyWordFrom(lines[i], 0).Some? then DifficultyWordFrom(lines[i], 0).value else Medium
  {
    forall i | 0 <= i < |lines| && IsDifficultyLine(lines[i]) && (forall j :: 0 <= j < i ==> !IsDifficultyLine(lines[j]))
      ensures DifficultyOf(lines) == if DifficultyWordFrom(lines[i], 0).Some? then DifficultyWordFrom(lines[i], 0).value else Medium
    {
      FindFirst(lines, IsDifficultyLine, i);
    }
  }

  /** Without an answer line the answer is empty; otherwise it is the letter
      of the first answer line. */
  lemma AnswerOfSpec(lines: seq<string>)
    ensures (forall l :: l in lines ==> !IsAnswerLine(l)) ==> AnswerOf(lines) == ""
    ensures forall i :: 0 <= i < |lines| && IsAnswerLine(lines[i]) && (forall j :: 0 <= j < i ==> !IsAnswerLine(lines[j])) ==>
              AnswerOf(lines) == AnswerLetter(lines[i])
  {
    forall i | 0 <= i < |lines| && IsAnswerLine(lines[i]) && (forall j :: 0 <= j < i ==> !IsAnswerLine(lines[j]))
      ensures AnswerOf(lines) == AnswerLetter(lines[i])
    {
      FindFirst(lines, IsAnswerLine, i);
    }
  }

  /** One question block: `null` (here `None`) below three lines. */
  function ParseBlock(block: string): Option<Question> {
    var lines := BlockLines(block);
    if |lines| < 3 then None
    else Some(Question(lines[0], Filter(lines, IsOptionEntry), AnswerOf(lines), DifficultyOf(lines)))
  }

  /** `q !== null && q.options.length === 4 && q.correctAnswer`. */
  predicate IsKept(c: Option<Question>) {
    c.Some? && |c.value.options| == 4 && c.value.correctAnswer != ""
  }

  /** `q.trim().length > 0`. */
  predicate NotBlank(b: string) {
    Trim(b) != []
  }

  /** The candidate of each non-blank block, in order. */
  function Candidates(c: string): seq<Option<Question>> {
    Map(Filter(SplitBlocks(c), NotBlank), ParseBlock)
  }

  function QuestionsOf(text: string): seq<Question> {
    match QuestionsText(text)
    case Some(c) => Somes(Filter(Candidates(c), IsKept))
    case None => []
  }

  /** What every kept question satisfies: a non-empty trimmed question line,
      exactly four option lines, and a one-character upper-cased answer. */
  predicate WellFormed(q: Question) {
    q.question != [] && q.question == Trim(q.question)
    && |q.options| == 4 && (forall o :: o in q.options ==> IsOptionLine(o))
    && |q.correctAnswer| == 1 && q.correctAnswer[0] == UpperChar(q.correctAnswer[0])
  }

  lemma SomesMembers<T>(xs: seq<Option<T>>, x: T)
    ensures x in Somes(xs) <==> Some(x) in xs
  {
    if xs != [] {
      SomesMembers(xs[1..], x);
      assert xs == [xs[0]] + xs[1..];
    }
  }

  /** A block gives a kept question exactly when it has at least three
      non-empty lines, exactly four option lines and a non-empty answer; the
      question kept is well formed. */
  lemma ParseBlockSpec(block: string)
    ensures var lines := BlockLines(block);
            IsKept(ParseBlock(block)) <==>
              |lines| >= 3 && |Filter(lines, IsOptionLine)| == 4 && AnswerOf(lines) != ""
    ensures IsKept(ParseBlock(block)) ==> WellFormed(ParseBlock(block).value)
    ensures var lines := BlockLines(block);
            ParseBlock(block).Some? <==> |lines| >= 3
    ensures var lines := BlockLines(block);
            ParseBlock(block).Some? ==>
              var q := ParseBlock(block).value;
              q.question == lines[0] && q.options == Filter(lines, IsOptionLine)
              && q.correctAnswer == AnswerOf(lines) && q.difficulty == DifficultyOf(lines)
  {
    var lines := BlockLines(block);
    BlockLinesTrimmed(block);
    FilterSame(lines);
    if |lines| >= 3 {
      assert lines[0] in lines;
    }
  }

  /** With the redundant guards, the option filter is the plain `^[A-D]\)` one. */
  lemma {:induction false} FilterSame(lines: seq<string>)
    ensures Filter(lines, IsOptionEntry) == Filter(lines, IsOptionLine)
  {
    if lines != [] {
      FilterSame(lines[1..]);
      if IsOptionLine(lines[0]) {
        OptionGuardsRedundant(lines[0]);
      }
    }
  }

  /** The kept questions of a questions text are exactly its kept candidates. */
  lemma KeptMembers(c: string)
    ensures forall q :: q in Somes(Filter(Candidates(c), IsKept)) <==> Some(q) in Candidates(c) && IsKept(Some(q))
  {
    KeptMembersOf(Candidates(c));
  }

  lemma KeptMembersOf(cands: seq<Option<Question>>)
    ensures forall q :: q in Somes(Filter(cands, IsKept)) <==> Some(q) in cands && IsKept(Some(q))
  {
    var kept := Filter(cands, IsKept);
    FilterCounts(cands, IsKept);
    forall q ensures q in Somes(kept) <==> Some(q) in cands && IsKept(Some(q)) {
      SomesMembers(kept, q);
      assert Some(q) in kept <==> multiset(kept)[Some(q)] > 0;
    }
  }

  /** Each kept question appears as often as its candidate does. */
  lemma KeptCountsOf(cands: seq<Option<Question>>)
    ensures forall q :: multiset(Somes(Filter(cands, IsKept)))[q] ==
                        if IsKept(Some(q)) then multiset(cands)[Some(q)] else 0
  {
    SomesCounts(Filter(cands, IsKept));
    FilterCounts(cands, IsKept);
  }

  /** Every kept question is well formed. */
  lemma KeptWellFormed(c: string)
    ensures forall q :: q in Somes(Filter(Candidates(c), IsKept)) ==> WellFormed(q)
  {
    KeptWellFormedOf(Filter(SplitBlocks(c), NotBlank));
  }

  lemma KeptWellFormedOf(blocks: seq<string>)
    ensures forall q :: q in Somes(Filter(Map(blocks, ParseBlock), IsKept)) ==> WellFormed(q)
  {
    var cands := Map(blocks, ParseBlock);
    KeptMembersOf(cands);
    forall q | q in Somes(Filter(cands, IsKept)) ensures WellFormed(q) {
      var i :| 0 <= i < |cands| && cands[i] == Some(q);
      ParseBlockSpec(blocks[i]);
    }
  }

  /** The kept questions come in the order of their blocks. */
  lemma KeptOrder(c: string)
    ensures IsSubseq(Map(Somes(Filter(Candidates(c), IsKept)), (q: Question) => Some(q)), Candidates(c))
  {
    var cands := Candidates(c);
    var kept := Filter(cands, IsKept);
    SomesOrder(kept);
    FilterIsSubseq(cands, IsKept);
    SubseqTrans(Map(Somes(kept), (q: Question) => Some(q)), kept, cands);
  }

  /** Questions: none without a `Questions:` label; otherwise the kept
      questions are exactly the candidates that pass the final filter, each
      as often as among the candidates, all well formed, in the order of
      their blocks. */
  lemma QuestionsSpec(text: string)
    ensures (forall m :: !LabelAt(text, m, "questions:")) ==> QuestionsOf(text) == []
    ensures forall q :: q in QuestionsOf(text) ==> WellFormed(q)
    ensures QuestionsText(text).Some? ==>
              var cands := Candidates(QuestionsText(text).value);
              (forall q :: q in QuestionsOf(text) <==> Some(q) in cands && IsKept(Some(q)))
              && IsSubseq(Map(QuestionsOf(text), (q: Question) => Some(q)), cands)
    ensures QuestionsText(text).Some? ==>
              var cands := Candidates(QuestionsText(text).value);
              forall q :: multiset(QuestionsOf(text))[q] == if IsKept(Some(q)) then multiset(cands)[Some(q)] else 0
  {
    if QuestionsText(text).Some? {
      var c := QuestionsText(text).value;
      KeptCountsOf(Candidates(c));
      KeptMembers(c);
      KeptWellFormed(c);
      KeptOrder(c);
    }
  }

  /** The whole record, for a given bullet class. */
  function ParseWith(text: string, bullets: set<char>): Analysis {
    Analysis(SubjectOf(text), TopicsOf(text, bullets), SummaryOf(text, bullets), QuestionsOf(text))
  }

  /** `parseGeminiResponse` as written. */
  function Parse(text: string): Analysis {
    ParseWith(text, Bullets)
  }

  /** `parseGeminiResponse` with the bullet class it evidently means. */
  function ParseIntended(text: string): Analysis {
    ParseWith(text, IntendedBullets)
  }

  /** `parseGeminiResponse`: start from the defaults and fill in each field
      whose label is found. */
  method ParseResponse(responseText: string) returns (result: Analysis)
    ensures result == Parse(responseText)
  {
    result := Analysis(Other, [], [], []);

    var subjectMatch := SubjectLine(responseText);
    if subjectMatch.Some? {
      var detectedSubject := Trim(subjectMatch.value);
      var subject := DetectSubject(detectedSubject);
      result := result.(subject := subject);
    }

    var topicsMatch := TopicsText(responseText);
    if topicsMatch.Some? {
      var pieces := CleanAll(TopicPieces(topicsMatch.value), Bullets);
      result := result.(topics := FirstN(Filter(pieces, TopicSized), 5));
    }

    var summaryMatch := SummaryText(responseText);
    if summaryMatch.Some? {
      var lines := CleanAll(SummaryPieces(summaryMatch.value), Bullets);
      result := result.(summary := FirstN(Filter(lines, SummarySized), 5));
    }

    var questionsMatch := QuestionsText(responseText);
    if questionsMatch.Some? {
      result := result.(questions := Somes(Filter(Candidates(questionsMatch.value), IsKept)));
    }
  }

  /** As written, a piece bulleted with U+2022 keeps its bullet. */
  lemma KeepsRealBullet(t: string)
    requires Trim(t) != [] && Trim(t)[0] == '\U{2022}'
    ensures Clean(t, Bullets) == Trim(t)
  {
    assert '\U{2022}' !in Bullets;
    CleanSpec(t, Bullets);
  }

  /** With the intended class the U+2022 bullet is cut off. */
  lemma IntendedStripsRealBullet(t: string)
    requires Trim(t) != [] && Trim(t)[0] == '\U{2022}'
    ensures |Clean(t, IntendedBullets)| < |Trim(t)|
  {
    assert '\U{2022}' in IntendedBullets;
    var b := StripBullet(Trim(t), IntendedBullets);
    assert |b| < |Trim(t)|;
    assert |StripNumber(b)| <= |b|;
  }

  /** The topic `• G` is kept with its bullet as written, and without it
      under the intended class. */
  lemma BulletCounterexample()
    ensures Clean("\U{2022} G", Bullets) == "\U{2022} G"
    ensures Clean("\U{2022} G", IntendedBullets) == "G"
  {
    var t := "\U{2022} G";
    assert !IsSpace(t[0]) && !IsSpace(t[2]);
    assert TrimStart(t) == t;
    assert TrimEnd(t) == t;
    assert SkipDigits(t, 0) == 0;
    assert t[1..] == " G" && " G"[1..] == "G";
    assert TrimStart("G") == "G";
    assert TrimStart(" G") == "G";
    assert SkipDigits("G", 0) == 0;
  }
}
