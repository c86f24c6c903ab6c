/** When the parser gives which of its three answers. */
module HttpAnswers {
  import opened HttpParser
  import opened HttpSyntax
  import opened HttpGrammar

  /* ----- finishing an unfinished request ----- */

  const SOME_VERB: Text := [65]
  const SOME_DIGIT: Text := [ZERO]

  /** A tree that starts with what has been read. */
  function Finished(p: Partial): Tree {
    match p
    case InVerb(v) => Tree(Line(if v == [] then SOME_VERB else v, [], SOME_DIGIT, SOME_DIGIT), [])
    case InUri(v, u) => Tree(Line(v, u, SOME_DIGIT, SOME_DIGIT), [])
    case InName(v, u, _) => Tree(Line(v, u, SOME_DIGIT, SOME_DIGIT), [])
    case InMajor(v, u, m) => Tree(Line(v, u, if m == [] then SOME_DIGIT else m, SOME_DIGIT), [])
    case InMinor(l) => Tree(l.(minor := if l.minor == [] then SOME_DIGIT else l.minor), [])
    case LineEnd(l) => Tree(l, [])
    case AtStart(l, fs) => Tree(l, fs)
    case InFieldName(l, fs, n) => Tree(l, fs + [Field(n, [], [])])
    case BeforeValue(l, fs, n) => Tree(l, fs + [Field(n, [], [])])
    case InFirst(l, fs, f) => Tree(l, fs + [f])
    case InFold(l, fs, f, d) => Tree(l, fs + [Closed(f, d)])
    case FieldEnd(l, fs) => Tree(l, fs)
    case End(l, fs) => Tree(l, fs)
  }

  /** a is followed by something to make b. */
  predicate Starts(a: Text, b: Text) {
    |a| < |b| && a <= b
  }

  lemma StartsWith(a: Text, x: Text, b: Text)
    requires x != [] && b == a + x
    ensures Starts(a, b)
  {
  }

  lemma LineStarts(p: Partial)
    requires PartialOk(p) && (p.InVerb? || p.InUri?)
    ensures TreeOk(Finished(p)) && Starts(Seen(p), LineText(Finished(p).line))
  {
    hide IsTSpecial, HttpSlash;
    var l := Finished(p).line;
    var x := [SP] + HttpSlash() + l.major + [DOT] + l.minor + [CR, LF];
    assert LineText(l) == l.verb + [SP] + l.uri + x;
    if p.InVerb? {
      LetterIsToken();
      StartsWith(Seen(p), (if p.verb == [] then SOME_VERB else []) + [SP] + l.uri + x, LineText(l));
    } else {
      StartsWith(Seen(p), x, LineText(l));
    }
  }

  lemma LetterIsToken()
    ensures AllToken(SOME_VERB)
  {
  }

  lemma NameStarts(p: Partial)
    requires PartialOk(p) && p.InName?
    ensures TreeOk(Finished(p)) && Starts(Seen(p), LineText(Finished(p).line))
  {
    hide IsTSpecial, HttpSlash;
    var l, k := Finished(p).line, p.k;
    SlashLength();
    assert HttpSlash() == HttpSlash()[..k] + HttpSlash()[k..];
    var a, x := p.verb + [SP] + p.uri + [SP], l.major + [DOT] + l.minor + [CR, LF];
    assert LineText(l) == a + HttpSlash() + x;
    StartsWith(a + HttpSlash()[..k], HttpSlash()[k..] + x, a + HttpSlash() + x);
  }

  lemma SlashLength()
    ensures |HttpSlash()| == 5
  {
  }

  lemma VersionStarts(p: Partial)
    requires PartialOk(p) && (p.InMajor? || p.InMinor? || p.LineEnd?)
    ensures TreeOk(Finished(p)) && Starts(Seen(p), LineText(Finished(p).line))
  {
    hide IsTSpecial, IsToken, HttpSlash;
  }

  lemma FieldStarts(p: Partial)
    requires PartialOk(p) && (p.InFieldName? || p.BeforeValue?)
    ensures TreeOk(Finished(p)) && Starts(Seen(p), Render(Finished(p)))
  {
    hide IsTSpecial, LineText, FieldsText, FieldText;
    var l, fs, f := p.line, p.fields, Field(p.name, [], []);
    FieldsSnoc(fs, f);
    FieldWithoutFolds(f);
    var a := LineText(l) + FieldsText(fs);
    StartsWith(a + p.name, [COLON] + [SP] + [CR, LF] + [CR, LF], a + (p.name + [COLON, SP] + [] + [CR, LF]) + [CR, LF]);
  }

  lemma ValueStarts(p: Partial)
    requires PartialOk(p) && p.InFirst?
    ensures TreeOk(Finished(p)) && Starts(Seen(p), Render(Finished(p)))
  {
    hide IsTSpecial, LineText, FieldsText, FieldText;
    var l, fs, f := p.line, p.fields, p.field;
    FieldsSnoc(fs, f);
    FieldWithoutFolds(f);
    var a := LineText(l) + FieldsText(fs);
    StartsWith(Seen(p), [CR, LF] + [CR, LF], a + (f.name + [COLON, SP] + f.first + [CR, LF]) + [CR, LF]);
  }

  lemma FoldStarts(p: Partial)
    requires PartialOk(p) && p.InFold?
    ensures TreeOk(Finished(p)) && Starts(Seen(p), Render(Finished(p)))
  {
    hide IsTSpecial, LineText, FieldsText, FieldText, FoldOk, FieldOk;
    var l, fs, f, d := p.line, p.fields, p.field, p.fold;
    FieldsSnoc(fs, Closed(f, d));
    ClosedField(f, d);
    var a := LineText(l) + FieldsText(fs);
    StartsWith(Seen(p), [CR, LF] + [CR, LF], a + (FieldText(f) + (d.blanks + d.text + [CR, LF])) + [CR, LF]);
  }

  lemma EndStarts(p: Partial)
    requires PartialOk(p) && (p.AtStart? || p.FieldEnd? || p.End?)
    ensures TreeOk(Finished(p)) && Starts(Seen(p), Render(Finished(p)))
  {
    hide IsTSpecial, LineText, FieldsText, LineOk, FieldsOk;
  }

  lemma FinishedStarts(p: Partial)
    requires PartialOk(p)
    ensures TreeOk(Finished(p)) && Starts(Seen(p), Render(Finished(p)))
  {
    hide PartialOk, Seen, LineText, FieldsText, TreeOk, Finished;
    match p
    case InVerb(_) => LineStarts(p);
    case InUri(_, _) => LineStarts(p);
    case InName(_, _, _) => NameStarts(p);
    case InMajor(_, _, _) => VersionStarts(p);
    case InMinor(_) => VersionStarts(p);
    case LineEnd(_) => VersionStarts(p);
    case InFieldName(_, _, _) => FieldStarts(p);
    case BeforeValue(_, _, _) => FieldStarts(p);
    case InFirst(_, _, _) => ValueStarts(p);
    case InFold(_, _, _, _) => FoldStarts(p);
    case _ => EndStarts(p);
  }

  /* ----- the answers ----- */

  /** A request that wants more has been recognized so far. */
  lemma {:induction false} WantsMore(p: Partial, s: Text)
    requires PartialOk(p) && Run(ConfOf(p), s).result == Indeterminate
    ensures Recognize(p, s).Some?
    decreases |s|
  {
    hide PartialOk, ConfOf, Step, More;
    if s != [] {
      Agrees(p, s[0]);
      if More(p, s[0]).Some? {
        WantsMore(More(p, s[0]).value, s[1..]);
      }
    }
  }

  /** The parser wants more exactly when some request starts with all it has
      been given. */
  lemma IndeterminateIffStart(s: Text)
    ensures Run(Fresh(), s).result == Indeterminate <==> exists t :: TreeOk(t) && Starts(s, Render(t))
  {
    hide PartialOk, ConfOf, Recognize, Run, Seen, Render, TreeOk, Finished;
    if Run(Fresh(), s).result == Indeterminate {
      FreshConf();
      WantsMore(InVerb([]), s);
      var q := Recognize(InVerb([]), s).value;
      RecognizedRuns(InVerb([]), s, q);
      assert Seen(q) == s;
      FinishedStarts(q);
      assert TreeOk(Finished(q)) && Starts(s, Render(Finished(q)));
    }
    if t :| TreeOk(t) && Starts(s, Render(t)) {
      var rest := Render(t)[|s|..];
      assert s + rest == Render(t) == Render(t) + [];
      GrammaticalIsGood(t, []);
      RunInPieces(Fresh(), s, rest);
    }
  }

  /** It is content exactly when all of some request is there. */
  lemma GoodIffWhole(s: Text)
    ensures Run(Fresh(), s).result == Good <==> exists t :: TreeOk(t) && Render(t) <= s
  {
    hide Run, Render, TreeOk;
    if Run(Fresh(), s).result == Good {
      var t := GoodIsGrammatical(s);
      assert Render(t) <= s;
    }
    if t :| TreeOk(t) && Render(t) <= s {
      assert s == Render(t) + s[|Render(t)|..];
      GrammaticalIsGood(t, s[|Render(t)|..]);
    }
  }

  /** And it refuses exactly what has no request in front and is in front of
      none. */
  lemma BadIffNeither(s: Text)
    ensures Run(Fresh(), s).result == Bad <==> forall t :: TreeOk(t) ==> !(Render(t) <= s) && !(s <= Render(t))
  {
    hide Run, Render, TreeOk;
    IndeterminateIffStart(s);
    GoodIffWhole(s);
    if t :| TreeOk(t) && s <= Render(t) && !Starts(s, Render(t)) {
      assert s == Render(t);
    }
  }
}
