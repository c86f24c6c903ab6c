/** The parser in character codes: what each state goes on with, and one request
    with everything in it. */
module HttpClasses {
  import opened HttpParser
  import opened HttpSyntax
  import opened HttpGrammar

  predicate Letter(c: Chr) { 65 <= c <= 90 || 97 <= c <= 122 }

  predicate Figure(c: Chr) { 48 <= c <= 57 }

  /** ! # $ % & ' * + - . ^ _ ` | ~ */
  predicate Sign(c: Chr) {
    c == 33 || 35 <= c <= 39 || c == 42 || c == 43 || c == 45 || c == 46 || 94 <= c <= 96 || c == 124 || c == 126
  }

  predicate NameChr(c: Chr) { Letter(c) || Figure(c) || Sign(c) }

  /** Codes below zero are not among the control characters. */
  predicate Printable(c: Chr) { c < 0 || 32 <= c <= 126 }

  /** Character c leads from state s to state t, some headers being there or not. */
  predicate Leads(s: State, some: bool, c: Chr, t: State) {
    match s
    case MethodStart => t.Method? && NameChr(c)
    case Method => (t.Uri? && c == 32) || (t.Method? && NameChr(c))
    case Uri => (t.VersionH? && c == 32) || (t.Uri? && c != 32 && Printable(c))
    case VersionH => t.VersionT1? && c == 72
    case VersionT1 => t.VersionT2? && c == 84
    case VersionT2 => t.VersionP? && c == 84
    case VersionP => t.VersionSlash? && c == 80
    case VersionSlash => t.MajorStart? && c == 47
    case MajorStart => t.Major? && Figure(c)
    case Major => (t.MinorStart? && c == 46) || (t.Major? && Figure(c))
    case MinorStart => t.Minor? && Figure(c)
    case Minor => (t.Newline1? && c == 13) || (t.Minor? && Figure(c))
    case Newline1 => t.HeaderLineStart? && c == 10
    case HeaderLineStart =>
      (t.Newline3? && c == 13) || (t.HeaderLws? && some && (c == 32 || c == 9)) || (t.HeaderName? && NameChr(c))
    case HeaderLws =>
      (t.Newline2? && c == 13) || (t.HeaderLws? && (c == 32 || c == 9))
      || (t.HeaderValue? && c != 32 && Printable(c))
    case HeaderName => (t.SpaceBeforeValue? && c == 58) || (t.HeaderName? && NameChr(c))
    case SpaceBeforeValue => t.HeaderValue? && c == 32
    case HeaderValue => (t.Newline2? && c == 13) || (t.HeaderValue? && Printable(c))
    case Newline2 => t.HeaderLineStart? && c == 10
    case Newline3 => false
  }

  lemma TokenCodes(c: Chr)
    ensures IsToken(c) <==> NameChr(c)
  {
  }

  lemma ControlCodes(c: Chr)
    ensures IsCtl(c) <==> !Printable(c)
  {
  }

  /** One step does what the codes say. */
  predicate InCodes(k: Conf, c: Chr, t: State) {
    var (r, k') := Step(k, c);
    && (r == Indeterminate && k'.state == t <==> Leads(k.state, k.req.headers != [], c, t))
    && (r == Good <==> k.state.Newline3? && c == 10)
  }

  lemma NamesInCodes(k: Conf, c: Chr, t: State)
    requires k.state.MethodStart? || k.state.Method? || k.state.Uri?
    ensures InCodes(k, c, t)
  {
    hide IsToken, NameChr, IsCtl, Printable, IsTSpecial;
    TokenCodes(c);
    ControlCodes(c);
    BlankIsPrintable(c);
  }

  lemma VersionInCodes(k: Conf, c: Chr, t: State)
    requires InLine(k.state) && !k.state.MethodStart? && !k.state.Method? && !k.state.Uri?
    ensures InCodes(k, c, t)
  {
    hide IsToken, NameChr, IsCtl, Printable, IsTSpecial;
  }

  lemma StartInCodes(k: Conf, c: Chr, t: State)
    requires k.state.HeaderLineStart? || k.state.HeaderLws?
    ensures InCodes(k, c, t)
  {
    hide IsToken, NameChr, IsCtl, Printable, IsTSpecial, AddToName, AddToValue;
    TokenCodes(c);
    ControlCodes(c);
    BlankIsPrintable(c);
  }

  lemma HeadersInCodes(k: Conf, c: Chr, t: State)
    requires !InLine(k.state) && !k.state.HeaderLineStart? && !k.state.HeaderLws?
    ensures InCodes(k, c, t)
  {
    hide IsToken, NameChr, IsCtl, Printable, IsTSpecial, AddToName, AddToValue;
    TokenCodes(c);
    ControlCodes(c);
    BlankIsPrintable(c);
  }

  /** In every state, every character goes on exactly to the states given here in
      codes, and with 10 the last state ends the request; anything else is bad. */
  lemma StepInCodes(k: Conf, c: Chr, t: State)
    ensures var (r, k') := Step(k, c);
      && (r == Indeterminate && k'.state == t <==> Leads(k.state, k.req.headers != [], c, t))
      && (r == Good <==> k.state.Newline3? && c == 10)
  {
    hide Step, Leads;
    assert InCodes(k, c, t) by {
      if k.state.HeaderLineStart? || k.state.HeaderLws? {
        StartInCodes(k, c, t);
      } else if !InLine(k.state) {
        HeadersInCodes(k, c, t);
      } else if k.state.MethodStart? || k.state.Method? || k.state.Uri? {
        NamesInCodes(k, c, t);
      } else {
        VersionInCodes(k, c, t);
      }
    }
  }

  lemma BlankIsPrintable(c: Chr)
    ensures c == 32 ==> Printable(c) && !NameChr(c)
    ensures c == 13 || c == 9 || c == 10 ==> !Printable(c) && !NameChr(c)
    ensures c == 58 ==> !NameChr(c)
  {
  }

  /* ----- a request ----- */

  /** GET /a HTTP/1.10, a header User-Agent: x, and a continuation line. */
  function Sample(): Tree {
    Tree(Line([71, 69, 84], [47, 97], [49], [49, 48]),
         [Field([85, 115, 101, 114, 45, 65, 103, 101, 110, 116], [120], [Fold([9], [121, 32, 122])])])
  }

  lemma SampleOk()
    ensures TreeOk(Sample())
  {
    hide IsToken;
    forall i | 0 <= i < 10
      ensures IsToken(Sample().fields[0].name[i])
    {
      TokenCodes(Sample().fields[0].name[i]);
    }
    TokenCodes(71);
    TokenCodes(69);
    TokenCodes(84);
  }

  lemma SampleText()
    ensures Render(Sample()) ==
      [71, 69, 84, 32, 47, 97, 32, 72, 84, 84, 80, 47, 49, 46, 49, 48, 13, 10]
      + [85, 115, 101, 114, 45, 65, 103, 101, 110, 116, 58, 32, 120, 13, 10, 9, 121, 32, 122, 13, 10]
      + [13, 10]
  {
    var l, f := Sample().line, Sample().fields[0];
    assert FoldsText([]) == [];
    assert f.folds[..0] == [] && Sample().fields[..0] == [];
    assert FieldsText([]) == [];
  }

  lemma SampleMeans()
    requires TreeOk(Sample())
    ensures Meaning(Sample()) ==
      Request([71, 69, 84], [47, 97], 1, 10,
              [Header([85, 115, 101, 114, 45, 65, 103, 101, 110, 116], [120, 121, 32, 122])])
  {
    var l, f := Sample().line, Sample().fields[0];
    assert l.major[..0] == [] && l.minor[..1] == [49] && [49][..0] == [];
    assert f.folds[..0] == [] && [] + [121, 32, 122] == [121, 32, 122];
    assert [120] + [121, 32, 122] == [120, 121, 32, 122];
    assert HeadersOf(Sample().fields)[0] == HeaderOf(f);
  }

  /** The parser reads it to its end and fills in the request. */
  lemma SampleParsed(rest: Text)
    ensures var s := [71, 69, 84, 32, 47, 97, 32, 72, 84, 84, 80, 47, 49, 46, 49, 48, 13, 10]
        + [85, 115, 101, 114, 45, 65, 103, 101, 110, 116, 58, 32, 120, 13, 10, 9, 121, 32, 122, 13, 10] + [13, 10];
      Run(Fresh(), s + rest) == Parsed(Good,
        Conf(Newline3, Request([71, 69, 84], [47, 97], 1, 10,
          [Header([85, 115, 101, 114, 45, 65, 103, 101, 110, 116], [120, 121, 32, 122])])), 41)
  {
    hide Run, Render, Meaning, TreeOk;
    SampleOk();
    SampleText();
    SampleMeans();
    GrammaticalIsGood(Sample(), rest);
  }
}
