/** The request grammar the parser accepts: request line, headers with folded
    continuation lines, blank line; and that the parser accepts nothing else. */
module HttpSyntax {
  import opened HttpParser
  import opened Wrappers

  /* ----- syntax trees ----- */

  /** A continuation line: blanks, then text that does not start with one. */
  datatype Fold = Fold(blanks: Text, text: Text)

  datatype Field = Field(name: Text, first: Text, folds: seq<Fold>)

  datatype Line = Line(verb: Text, uri: Text, major: Text, minor: Text)

  datatype Tree = Tree(line: Line, fields: seq<Field>)

  predicate AllToken(s: Text) { forall i :: 0 <= i < |s| ==> IsToken(s[i]) }
  predicate AllDigit(s: Text) { forall i :: 0 <= i < |s| ==> IsDigit(s[i]) }
  predicate AllBlank(s: Text) { forall i :: 0 <= i < |s| ==> IsBlank(s[i]) }
  predicate NoCtl(s: Text) { forall i :: 0 <= i < |s| ==> !IsCtl(s[i]) }
  predicate NoSpace(s: Text) { forall i :: 0 <= i < |s| ==> s[i] != SP }

  predicate LineOk(l: Line) {
    && l.verb != [] && AllToken(l.verb) && NoCtl(l.uri) && NoSpace(l.uri)
    && l.major != [] && AllDigit(l.major) && l.minor != [] && AllDigit(l.minor)
  }

  predicate FoldOk(f: Fold) {
    f.blanks != [] && AllBlank(f.blanks) && NoCtl(f.text) && (f.text != [] ==> f.text[0] != SP)
  }

  predicate FieldOk(f: Field) {
    && f.name != [] && AllToken(f.name) && NoCtl(f.first)
    && forall i :: 0 <= i < |f.folds| ==> FoldOk(f.folds[i])
  }

  predicate FieldsOk(fs: seq<Field>) { forall i :: 0 <= i < |fs| ==> FieldOk(fs[i]) }

  predicate TreeOk(t: Tree) { LineOk(t.line) && FieldsOk(t.fields) }

  /* ----- the text of a tree ----- */

  function LineText(l: Line): Text {
    l.verb + [SP] + l.uri + [SP] + HttpSlash() + l.major + [DOT] + l.minor + [CR, LF]
  }

  function FoldText(f: Fold): Text { f.blanks + f.text + [CR, LF] }

  function FoldsText(fs: seq<Fold>): Text {
    if fs == [] then [] else FoldsText(fs[..|fs| - 1]) + FoldText(fs[|fs| - 1])
  }

  function FieldText(f: Field): Text {
    f.name + [COLON, SP] + f.first + [CR, LF] + FoldsText(f.folds)
  }

  function FieldsText(fs: seq<Field>): Text {
    if fs == [] then [] else FieldsText(fs[..|fs| - 1]) + FieldText(fs[|fs| - 1])
  }

  function Render(t: Tree): Text {
    LineText(t.line) + FieldsText(t.fields) + [CR, LF]
  }

  /* ----- the request a tree stands for ----- */

  function Number(ds: Text): nat
    requires AllDigit(ds)
  {
    if ds == [] then 0 else Number(ds[..|ds| - 1]) * 10 + (ds[|ds| - 1] - ZERO)
  }

  function FoldsValue(fs: seq<Fold>): Text {
    if fs == [] then [] else FoldsValue(fs[..|fs| - 1]) + fs[|fs| - 1].text
  }

  function HeaderOf(f: Field): Header {
    Header(f.name, f.first + FoldsValue(f.folds))
  }

  function HeadersOf(fs: seq<Field>): (hs: seq<Header>)
    ensures |hs| == |fs|
  {
    seq(|fs|, i requires 0 <= i < |fs| => HeaderOf(fs[i]))
  }

  function Meaning(t: Tree): Request
    requires TreeOk(t)
  {
    Request(t.line.verb, t.line.uri, Number(t.line.major), Number(t.line.minor), HeadersOf(t.fields))
  }

  /* ----- unfinished trees ----- */

  /** How far the text has been recognized. */
  datatype Partial =
    | InVerb(verb: Text)
    | InUri(verb: Text, uri: Text)
    | InName(verb: Text, uri: Text, k: nat)              // k characters of "HTTP/"
    | InMajor(verb: Text, uri: Text, major: Text)
    | InMinor(line: Line)
    | LineEnd(line: Line)                                // its CR has been read
    | AtStart(line: Line, fields: seq<Field>)            // at the start of a line
    | InFieldName(line: Line, fields: seq<Field>, name: Text)
    | BeforeValue(line: Line, fields: seq<Field>, name: Text)
    | InFirst(line: Line, fields: seq<Field>, field: Field)
    | InFold(line: Line, fields: seq<Field>, field: Field, fold: Fold)
    | FieldEnd(line: Line, fields: seq<Field>)           // the CR of its last line has been read
    | End(line: Line, fields: seq<Field>)                // the CR of the blank line has been read

  predicate PartialOk(p: Partial) {
    match p
    case InVerb(v) => AllToken(v)
    case InUri(v, u) => v != [] && AllToken(v) && NoCtl(u) && NoSpace(u)
    case InName(v, u, k) => k < 5 && v != [] && AllToken(v) && NoCtl(u) && NoSpace(u)
    case InMajor(v, u, m) => v != [] && AllToken(v) && NoCtl(u) && NoSpace(u) && AllDigit(m)
    case InMinor(l) => LineOk(l.(minor := [ZERO])) && AllDigit(l.minor)
    case LineEnd(l) => LineOk(l)
    case AtStart(l, fs) => LineOk(l) && FieldsOk(fs)
    case InFieldName(l, fs, n) => LineOk(l) && FieldsOk(fs) && n != [] && AllToken(n)
    case BeforeValue(l, fs, n) => LineOk(l) && FieldsOk(fs) && n != [] && AllToken(n)
    case InFirst(l, fs, f) => LineOk(l) && FieldsOk(fs) && FieldOk(f) && f.folds == []
    case InFold(l, fs, f, d) => LineOk(l) && FieldsOk(fs) && FieldOk(f) && FoldOk(d)
    case FieldEnd(l, fs) => LineOk(l) && FieldsOk(fs) && fs != []
    case End(l, fs) => LineOk(l) && FieldsOk(fs)
  }

  /** The text read so far. */
  function Seen(p: Partial): Text
    requires PartialOk(p)
  {
    match p
    case InVerb(v) => v
    case InUri(v, u) => v + [SP] + u
    case InName(v, u, k) => v + [SP] + u + [SP] + HttpSlash()[..k]
    case InMajor(v, u, m) => v + [SP] + u + [SP] + HttpSlash() + m
    case InMinor(l) => l.verb + [SP] + l.uri + [SP] + HttpSlash() + l.major + [DOT] + l.minor
    case LineEnd(l) => l.verb + [SP] + l.uri + [SP] + HttpSlash() + l.major + [DOT] + l.minor + [CR]
    case AtStart(l, fs) => LineText(l) + FieldsText(fs)
    case InFieldName(l, fs, n) => LineText(l) + FieldsText(fs) + n
    case BeforeValue(l, fs, n) => LineText(l) + FieldsText(fs) + n + [COLON]
    case InFirst(l, fs, f) => LineText(l) + FieldsText(fs) + f.name + [COLON, SP] + f.first
    case InFold(l, fs, f, d) => LineText(l) + FieldsText(fs) + FieldText(f) + d.blanks + d.text
    case FieldEnd(l, fs) => WithoutLf(LineText(l) + FieldsText(fs))
    case End(l, fs) => LineText(l) + FieldsText(fs) + [CR]
  }

  function WithoutLf(s: Text): Text {
    if s == [] then s else s[..|s| - 1]
  }

  function StateOf(p: Partial): State {
    match p
    case InVerb(v) => if v == [] then MethodStart else Method
    case InUri(_, _) => Uri
    case InName(_, _, k) =>
      if k == 0 then VersionH else if k == 1 then VersionT1 else if k == 2 then VersionT2
      else if k == 3 then VersionP else VersionSlash
    case InMajor(_, _, m) => if m == [] then MajorStart else Major
    case InMinor(l) => if l.minor == [] then MinorStart else Minor
    case LineEnd(_) => Newline1
    case AtStart(_, _) => HeaderLineStart
    case InFieldName(_, _, _) => HeaderName
    case BeforeValue(_, _, _) => SpaceBeforeValue
    case InFirst(_, _, _) => HeaderValue
    case InFold(_, _, _, d) => if d.text == [] then HeaderLws else HeaderValue
    case FieldEnd(_, _) => Newline2
    case End(_, _) => Newline3
  }

  function LineReq(l: Line, hs: seq<Header>): Request
    requires AllDigit(l.major) && AllDigit(l.minor)
  {
    Request(l.verb, l.uri, Number(l.major), Number(l.minor), hs)
  }

  function ReqOf(p: Partial): Request
    requires PartialOk(p)
  {
    match p
    case InVerb(v) => Request(v, [], 0, 0, [])
    case InUri(v, u) => Request(v, u, 0, 0, [])
    case InName(v, u, _) => Request(v, u, 0, 0, [])
    case InMajor(v, u, m) => Request(v, u, Number(m), 0, [])
    case InMinor(l) => LineReq(l, [])
    case LineEnd(l) => LineReq(l, [])
    case AtStart(l, fs) => LineReq(l, HeadersOf(fs))
    case InFieldName(l, fs, n) => LineReq(l, HeadersOf(fs) + [Header(n, [])])
    case BeforeValue(l, fs, n) => LineReq(l, HeadersOf(fs) + [Header(n, [])])
    case InFirst(l, fs, f) => LineReq(l, HeadersOf(fs) + [Header(f.name, f.first)])
    case InFold(l, fs, f, d) => LineReq(l, HeadersOf(fs) + [Header(f.name, f.first + FoldsValue(f.folds) + d.text)])
    case FieldEnd(l, fs) => LineReq(l, HeadersOf(fs))
    case End(l, fs) => LineReq(l, HeadersOf(fs))
  }

  function ConfOf(p: Partial): Conf
    requires PartialOk(p)
  {
    Conf(StateOf(p), ReqOf(p))
  }

  /* ----- recognizing one more character ----- */


  function Front(fs: seq<Field>): seq<Field>
    requires fs != []
  {
    fs[..|fs| - 1]
  }

  function LastOf(fs: seq<Field>): Field
    requires fs != []
  {
    fs[|fs| - 1]
  }

  function Closed(f: Field, d: Fold): Field {
    f.(folds := f.folds + [d])
  }

  /** One more character of the request line. */
  function LineMore(p: Partial, c: Chr): Option<Partial> {
    match p
    case InVerb(v) =>
      if v != [] && c == SP then Some(InUri(v, [])) else if IsToken(c) then Some(InVerb(v + [c])) else None
    case InUri(v, u) =>
      if c == SP then Some(InName(v, u, 0)) else if IsCtl(c) then None else Some(InUri(v, u + [c]))
    case InName(v, u, k) =>
      if k < 5 && c == HttpSlash()[k] then Some(if k == 4 then InMajor(v, u, []) else InName(v, u, k + 1)) else None
    case InMajor(v, u, m) =>
      if m != [] && c == DOT then Some(InMinor(Line(v, u, m, [])))
      else if IsDigit(c) then Some(InMajor(v, u, m + [c])) else None
    case InMinor(l) =>
      if l.minor != [] && c == CR then Some(LineEnd(l))
      else if IsDigit(c) then Some(InMinor(l.(minor := l.minor + [c]))) else None
    case LineEnd(l) => if c == LF then Some(AtStart(l, [])) else None
    case _ => None
  }

  /** One more character behind it. */
  function FieldMore(p: Partial, c: Chr): Option<Partial> {
    match p
    case AtStart(l, fs) =>
      if c == CR then Some(End(l, fs))
      else if fs != [] && IsBlank(c) then Some(InFold(l, Front(fs), LastOf(fs), Fold([c], [])))
      else if IsToken(c) then Some(InFieldName(l, fs, [c]))
      else None
    case InFieldName(l, fs, n) =>
      if c == COLON then Some(BeforeValue(l, fs, n))
      else if IsToken(c) then Some(InFieldName(l, fs, n + [c])) else None
    case BeforeValue(l, fs, n) => if c == SP then Some(InFirst(l, fs, Field(n, [], []))) else None
    case InFirst(l, fs, f) =>
      if c == CR then Some(FieldEnd(l, fs + [f]))
      else if IsCtl(c) then None else Some(InFirst(l, fs, f.(first := f.first + [c])))
    case InFold(l, fs, f, d) =>
      if c == CR then Some(FieldEnd(l, fs + [Closed(f, d)]))
      else if d.text == [] && IsBlank(c) then Some(InFold(l, fs, f, d.(blanks := d.blanks + [c])))
      else if IsCtl(c) then None else Some(InFold(l, fs, f, d.(text := d.text + [c])))
    case FieldEnd(l, fs) => if c == LF then Some(AtStart(l, fs)) else None
    case _ => None
  }

  function More(p: Partial, c: Chr): Option<Partial> {
    if InLine(StateOf(p)) then LineMore(p, c) else FieldMore(p, c)
  }

  lemma NumberMore(ds: Text, c: Chr)
    requires AllDigit(ds) && IsDigit(c)
    ensures AllDigit(ds + [c]) && Number(ds + [c]) == Number(ds) * 10 + (c - ZERO)
  {
    assert (ds + [c])[..|ds|] == ds;
  }

  /** The parser and the recognizer do the same with c. */
  predicate Agree(p: Partial, c: Chr)
    requires PartialOk(p)
  {
    match More(p, c)
    case None => Step(ConfOf(p), c) == (if p.End? && c == LF then Good else Bad, ConfOf(p))
    case Some(q) => PartialOk(q) && Step(ConfOf(p), c) == (Indeterminate, ConfOf(q)) && Seen(q) == Seen(p) + [c]
  }

  lemma VerbAgrees(p: Partial, c: Chr)
    requires PartialOk(p) && (p.InVerb? || p.InUri?)
    ensures Agree(p, c)
  {
    hide HttpSlash, Number, IsTSpecial;
  }

  lemma VersionAgrees(p: Partial, c: Chr)
    requires PartialOk(p) && (p.InName? || p.LineEnd?)
    ensures Agree(p, c)
  {
    hide IsTSpecial, IsToken, FieldsText;
    if p.InName? {
      assert p.k < 5 ==> HttpSlash()[..p.k + 1] == HttpSlash()[..p.k] + [HttpSlash()[p.k]];
      assert HttpSlash()[..5] == HttpSlash();
    } else {
      assert FieldsText([]) == [] by { NoFields(); }
    }
  }

  lemma NoFields()
    ensures FieldsText([]) == [] && HeadersOf([]) == []
  {
  }

  lemma MajorAgrees(p: Partial, c: Chr)
    requires PartialOk(p) && p.InMajor?
    ensures Agree(p, c)
  {
    hide HttpSlash, IsTSpecial, IsToken, Number;
    if IsDigit(c) {
      NumberMore(p.major, c);
    }
    NumberNone();
  }

  lemma MinorAgrees(p: Partial, c: Chr)
    requires PartialOk(p) && p.InMinor?
    ensures Agree(p, c)
  {
    hide HttpSlash, IsTSpecial, IsToken, Number;
    if IsDigit(c) {
      NumberMore(p.line.minor, c);
    }
  }

  lemma NumberNone()
    ensures Number([]) == 0
  {
  }

  lemma FieldsSnoc(fs: seq<Field>, f: Field)
    ensures FieldsText(fs + [f]) == FieldsText(fs) + FieldText(f)
    ensures HeadersOf(fs + [f]) == HeadersOf(fs) + [HeaderOf(f)]
    ensures FieldsOk(fs) && FieldOk(f) ==> FieldsOk(fs + [f])
  {
    assert (fs + [f])[..|fs|] == fs;
  }

  lemma ClosedField(f: Field, d: Fold)
    ensures FieldText(Closed(f, d)) == FieldText(f) + FoldText(d)
    ensures HeaderOf(Closed(f, d)) == Header(f.name, f.first + FoldsValue(f.folds) + d.text)
    ensures FieldOk(f) && FoldOk(d) ==> FieldOk(Closed(f, d))
  {
    var fs := f.folds + [d];
    assert fs[..|f.folds|] == f.folds;
    assert f.first + (FoldsValue(f.folds) + d.text) == f.first + FoldsValue(f.folds) + d.text;
    var head := f.name + [COLON, SP] + f.first + [CR, LF];
    assert head + (FoldsText(f.folds) + FoldText(d)) == head + FoldsText(f.folds) + FoldText(d);
  }

  lemma FieldWithoutFolds(f: Field)
    requires f.folds == []
    ensures FieldText(f) == f.name + [COLON, SP] + f.first + [CR, LF] && HeaderOf(f) == Header(f.name, f.first)
  {
    assert f.first + FoldsValue([]) == f.first;
  }

  lemma StartAgrees(p: Partial, c: Chr)
    requires PartialOk(p) && p.AtStart?
    ensures Agree(p, c)
  {
    hide LineText, IsTSpecial, FieldsText, FieldText, HeadersOf, Number;
    var l, fs := p.line, p.fields;
    if fs != [] {
      assert fs == Front(fs) + [LastOf(fs)];
      FieldsSnoc(Front(fs), LastOf(fs));
      var f := LastOf(fs);
      assert FieldOk(f);
      assert HeaderOf(f).value + [] == HeaderOf(f).value;
      assert LineText(l) + FieldsText(Front(fs)) + FieldText(f) == LineText(l) + FieldsText(fs);
    }
  }

  lemma AddToLast(hs: seq<Header>, h: Header, c: Chr)
    ensures AddToName(hs + [h], c) == hs + [Header(h.name + [c], h.value)]
    ensures AddToValue(hs + [h], c) == hs + [Header(h.name, h.value + [c])]
  {
  }

  lemma NameAgrees(p: Partial, c: Chr)
    requires PartialOk(p) && (p.InFieldName? || p.BeforeValue?)
    ensures Agree(p, c)
  {
    hide LineText, IsTSpecial, FieldsText, HeadersOf, Number, AddToName;
    AddToLast(HeadersOf(p.fields), Header(p.name, []), c);
  }

  /** The text up to the last LF, when something is put in front of it. */
  lemma FrontOfLine(a: Text, b: Text)
    ensures WithoutLf(a + (b + [CR, LF])) == a + b + [CR]
  {
  }

  lemma FirstAgrees(p: Partial, c: Chr)
    requires PartialOk(p) && p.InFirst?
    ensures Agree(p, c)
  {
    hide LineText, IsTSpecial, FieldsText, FieldText, HeadersOf, Number, HeaderOf, WithoutLf, AddToValue;
    var l, fs, f := p.line, p.fields, p.field;
    AddToLast(HeadersOf(fs), Header(f.name, f.first), c);
    FieldsSnoc(fs, f);
    FieldWithoutFolds(f);
    FrontOfLine(LineText(l) + FieldsText(fs), f.name + [COLON, SP] + f.first);
    assert LineText(l) + FieldsText(fs + [f]) ==
      LineText(l) + FieldsText(fs) + (f.name + [COLON, SP] + f.first + [CR, LF]);
  }

  lemma FoldAgrees(p: Partial, c: Chr)
    requires PartialOk(p) && p.InFold?
    ensures Agree(p, c)
  {
    hide LineText, IsTSpecial, FieldsText, FieldText, HeadersOf, Number, HeaderOf, WithoutLf, AddToValue, FoldsValue;
    var l, fs, f, d := p.line, p.fields, p.field, p.fold;
    AddToLast(HeadersOf(fs), Header(f.name, f.first + FoldsValue(f.folds) + d.text), c);
    assert f.first + FoldsValue(f.folds) + (d.text + [c]) == f.first + FoldsValue(f.folds) + d.text + [c];
    FieldsSnoc(fs, Closed(f, d));
    ClosedField(f, d);
    FrontOfLine(LineText(l) + FieldsText(fs) + FieldText(f), d.blanks + d.text);
    assert LineText(l) + FieldsText(fs + [Closed(f, d)])
        == LineText(l) + FieldsText(fs) + FieldText(f) + (d.blanks + d.text + [CR, LF]);
  }

  /** Every completed line ends with LF. */
  lemma EndsWithLf(fs: seq<Field>)
    requires fs != []
    ensures FieldsText(fs) != [] && FieldsText(fs)[|FieldsText(fs)| - 1] == LF
  {
    var f := LastOf(fs);
    if f.folds != [] {
      assert FoldsText(f.folds) != [];
    }
  }

  lemma EndAgrees(p: Partial, c: Chr)
    requires PartialOk(p) && (p.FieldEnd? || p.End?)
    ensures Agree(p, c)
  {
    hide LineText, IsTSpecial, FieldsText, HeadersOf, Number;
    if p.FieldEnd? {
      EndsWithLf(p.fields);
    }
  }

  lemma Agrees(p: Partial, c: Chr)
    requires PartialOk(p)
    ensures Agree(p, c)
  {
    hide Agree, PartialOk;
    match p
    case InVerb(_) => VerbAgrees(p, c);
    case InUri(_, _) => VerbAgrees(p, c);
    case InName(_, _, _) => VersionAgrees(p, c);
    case LineEnd(_) => VersionAgrees(p, c);
    case InMajor(_, _, _) => MajorAgrees(p, c);
    case InMinor(_) => MinorAgrees(p, c);
    case AtStart(_, _) => StartAgrees(p, c);
    case InFieldName(_, _, _) => NameAgrees(p, c);
    case BeforeValue(_, _, _) => NameAgrees(p, c);
    case InFirst(_, _, _) => FirstAgrees(p, c);
    case InFold(_, _, _, _) => FoldAgrees(p, c);
    case FieldEnd(_, _) => EndAgrees(p, c);
    case End(_, _) => EndAgrees(p, c);
  }
}
