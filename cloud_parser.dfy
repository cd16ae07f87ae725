/** `parseGeminiResponse` of the cloud function: subject, topics and summary
    as in `ResponseScan`, with the U+2022 bullet, and no questions. */
module CloudParser {
  import opened Util
  import opened Strings
  import opened ResponseScan
  import AppParser

  /** The bullet class `[-*•]`. */
  const Bullets: set<char> := {'-', '*', '\U{2022}'}

  datatype CloudAnalysis = CloudAnalysis(subject: Subject, topics: seq<string>, summary: seq<string>)

  function Parse(text: string): CloudAnalysis {
    CloudAnalysis(SubjectOf(text), TopicsOf(text, Bullets), SummaryOf(text, Bullets))
  }

  /** `parseGeminiResponse`: start from the defaults and fill in each field
      whose label is found. */
  method ParseResponse(responseText: string) returns (result: CloudAnalysis)
    ensures result == Parse(responseText)
  {
    result := CloudAnalysis(Other, [], []);

    var subjectMatch := SubjectLine(responseText);
    if subjectMatch.Some? {
      var detectedSubject := Trim(subjectMatch.value);
      var subject := DetectSubject(detectedSubject);
      result := result.(subject := subject);
    }

    var topicsMatch := TopicsText(responseText);
    if topicsMatch.Some? {
      var pieces := CleanAll(TopicPieces(topicsMatch.value), Bullets);
      result := result.(topics := FirstN(Filter(pieces, TopicSized), 5));
    }

    var summaryMatch := SummaryText(responseText);
    if summaryMatch.Some? {
      var lines := CleanAll(SummaryPieces(summaryMatch.value), Bullets);
      result := result.(summary := FirstN(Filter(lines, SummarySized), 5));
    }
  }

  /** A response without any of the three labels gives the defaults. */
  lemma EmptyWithoutLabels(text: string)
    requires forall m :: !LabelAt(text, m, "subject:") && !LabelAt(text, m, "topics:") && !LabelAt(text, m, "summary:")
    ensures Parse(text) == CloudAnalysis(Other, [], [])
  {
    SubjectSpec(text);
    TopicsSpec(text, Bullets);
    SummarySpec(text, Bullets);
  }

  /** The characters the two bullet classes disagree on. */
  predicate Disputed(c: char) {
    c == '\U{2022}' || c == '\U{E2}' || c == '\U{20AC}' || c == '\U{A2}'
  }

  /** A piece whose trimmed form does not start with a disputed character. */
  predicate Undisputed(t: string) {
    Trim(t) == [] || !Disputed(Trim(t)[0])
  }

  /** Such a piece is cleaned alike by both parsers. */
  lemma CleanAgrees(t: string)
    requires Undisputed(t)
    ensures Clean(t, Bullets) == Clean(t, AppParser.Bullets)
  {
    var s := Trim(t);
    if s != [] {
      assert s[0] in Bullets <==> s[0] in AppParser.Bullets;
    }
  }

  lemma CleanAllAgrees(pieces: seq<string>)
    requires forall t :: t in pieces ==> Undisputed(t)
    ensures CleanAll(pieces, Bullets) == CleanAll(pieces, AppParser.Bullets)
  {
    forall i | 0 <= i < |pieces| ensures CleanAll(pieces, Bullets)[i] == CleanAll(pieces, AppParser.Bullets)[i] {
      CleanAgrees(pieces[i]);
    }
  }

  /** When no topic or summary piece starts with a disputed character, the
      cloud parser and the app.js parser agree on the three fields. */
  lemma AgreesWithApp(text: string)
    requires TopicsText(text).Some? ==> forall t :: t in TopicPieces(TopicsText(text).value) ==> Undisputed(t)
    requires SummaryText(text).Some? ==> forall t :: t in SummaryPieces(SummaryText(text).value) ==> Undisputed(t)
    ensures var a := AppParser.Parse(text);
            Parse(text) == CloudAnalysis(a.subject, a.topics, a.summary)
  {
    if TopicsText(text).Some? {
      CleanAllAgrees(TopicPieces(TopicsText(text).value));
    }
    if SummaryText(text).Some? {
      CleanAllAgrees(SummaryPieces(SummaryText(text).value));
    }
  }

  /** A topic `• G`: the two parsers disagree on it. */
  lemma Disagreement()
    ensures Clean("\U{2022} G", Bullets) != Clean("\U{2022} G", AppParser.Bullets)
  {
    AppParser.BulletCounterexample();
  }

  /** With the bullet class it evidently means, the app.js parser agrees
      with the cloud parser on every response. */
  lemma AgreesWithIntendedApp(text: string)
    ensures var a := AppParser.ParseIntended(text);
            Parse(text) == CloudAnalysis(a.subject, a.topics, a.summary)
  {
  }
}
