/** The parser accepts exactly the texts of the grammar, and rebuilds what they
    say. */
module HttpGrammar {
  import opened HttpParser
  import opened HttpSyntax
  import opened Wrappers

  /* ----- running the recognizer ----- */

  function Recognize(p: Partial, s: Text): Option<Partial>
    decreases |s|
  {
    if s == [] then Some(p)
    else
      match More(p, s[0])
      case None => None
      case Some(q) => Recognize(q, s[1..])
  }

  lemma {:induction false} RecognizeOn(p: Partial, s: Text, q: Partial, t: Text)
    requires Recognize(p, s) == Some(q)
    ensures Recognize(p, s + t) == Recognize(q, t)
    decreases |s|
  {
    hide More;
    if s == [] {
      assert s + t == t;
    } else {
      assert (s + t)[0] == s[0] && (s + t)[1..] == s[1..] + t;
      RecognizeOn(More(p, s[0]).value, s[1..], q, t);
    }
  }

  /** As long as the recognizer goes on, so does the parser. */
  lemma {:induction false} RecognizedRuns(p: Partial, s: Text, q: Partial)
    requires PartialOk(p) && Recognize(p, s) == Some(q)
    ensures PartialOk(q) && Run(ConfOf(p), s) == Parsed(Indeterminate, ConfOf(q), |s|) && Seen(q) == Seen(p) + s
    decreases |s|
  {
    hide More, PartialOk, ConfOf, Seen, Step;
    if s == [] {
      assert Seen(p) + s == Seen(p);
    } else {
      Agrees(p, s[0]);
      RecognizedRuns(More(p, s[0]).value, s[1..], q);
      assert Seen(p) + [s[0]] + s[1..] == Seen(p) + s;
    }
  }

  /** When the parser is content, the recognizer has read a whole tree. */
  lemma {:induction false} GoodIsEnd(p: Partial, s: Text)
    requires PartialOk(p) && Run(ConfOf(p), s).result == Good
    ensures var r := Run(ConfOf(p), s);
      && 0 < r.used <= |s| && s[r.used - 1] == LF
      && exists q :: Recognize(p, s[..r.used - 1]) == Some(q) && PartialOk(q) && q.End? && r.conf == ConfOf(q)
    decreases |s|
  {
    hide PartialOk, ConfOf, Step, More;
    if s != [] {
      Agrees(p, s[0]);
      var r := Run(ConfOf(p), s);
      if More(p, s[0]).None? {
        assert s[..0] == [] && Recognize(p, s[..0]) == Some(p);
      } else {
        var p' := More(p, s[0]).value;
        GoodIsEnd(p', s[1..]);
        var n := Run(ConfOf(p'), s[1..]).used;
        assert s[..n][0] == s[0] && s[..n][1..] == s[1..][..n - 1];
        var q :| Recognize(p', s[1..][..n - 1]) == Some(q) && PartialOk(q) && q.End?
                 && Run(ConfOf(p'), s[1..]).conf == ConfOf(q);
        assert Recognize(p, s[..n]) == Some(q);
      }
    }
  }

  /* ----- soundness ----- */

  /** The parser's answer r on input s is the request of tree t. */
  predicate Reads(s: Text, r: Parsed, t: Tree) {
    TreeOk(t) && r.used <= |s| && s[..r.used] == Render(t) && r.conf.req == Meaning(t)
  }

  lemma FreshConf()
    ensures PartialOk(InVerb([])) && ConfOf(InVerb([])) == Fresh() && Seen(InVerb([])) == []
  {
  }

  /** Whatever is accepted is the text of a tree, with the request it means. */
  lemma GoodIsGrammatical(s: Text) returns (t: Tree)
    requires Run(Fresh(), s).result == Good
    ensures Reads(s, Run(Fresh(), s), t)
  {
    hide PartialOk, ConfOf, Recognize, Run, Seen, LineText, FieldsText, TreeOk;
    FreshConf();
    GoodIsEnd(InVerb([]), s);
    var r := Run(Fresh(), s);
    var q :| Recognize(InVerb([]), s[..r.used - 1]) == Some(q) && PartialOk(q) && q.End? && r.conf == ConfOf(q);
    RecognizedRuns(InVerb([]), s[..r.used - 1], q);
    t := Tree(q.line, q.fields);
    EndMeans(q, t);
    assert s[..r.used] == s[..r.used - 1] + [LF];
  }

  lemma EndMeans(q: Partial, t: Tree)
    requires PartialOk(q) && q.End? && t == Tree(q.line, q.fields)
    ensures TreeOk(t) && ConfOf(q).req == Meaning(t) && Render(t) == Seen(q) + [LF]
  {
    hide LineText, FieldsText, HeadersOf, Number;
    var a := LineText(t.line) + FieldsText(t.fields);
    assert a + [CR, LF] == a + [CR] + [LF];
  }

  /* ----- completeness, piece by piece ----- */

  /** Characters that only make the last piece longer. */
  lemma {:induction false} Absorb(g: Text -> Partial, ok: Chr -> bool, x: Text, w: Text)
    requires forall y: Text, c: Chr :: ok(c) ==> More(g(y), c) == Some(g(y + [c]))
    requires forall i :: 0 <= i < |w| ==> ok(w[i])
    ensures Recognize(g(x), w) == Some(g(x + w))
    decreases |w|
  {
    hide More;
    if w == [] {
      assert x + w == x;
    } else {
      Absorb(g, ok, x + [w[0]], w[1..]);
      assert x + [w[0]] + w[1..] == x + w;
    }
  }

  lemma OneOn(p: Partial, s: Text, q: Partial, c: Chr, r: Partial)
    requires Recognize(p, s) == Some(q) && More(q, c) == Some(r)
    ensures Recognize(p, s + [c]) == Some(r)
  {
    hide More;
    RecognizeOn(p, s, q, [c]);
    assert [c][1..] == [];
  }

  lemma VerbRead(v: Text)
    requires v != [] && AllToken(v)
    ensures Recognize(InVerb([]), v + [SP]) == Some(InUri(v, []))
  {
    hide Recognize, HttpSlash;
    Absorb((y: Text) => InVerb(y), (c: Chr) => IsToken(c), [], v);
    assert [] + v == v;
    OneOn(InVerb([]), v, InVerb(v), SP, InUri(v, []));
  }

  lemma UriRead(v: Text, u: Text)
    requires NoCtl(u) && NoSpace(u)
    ensures Recognize(InUri(v, []), u + [SP]) == Some(InName(v, u, 0))
  {
    hide Recognize, HttpSlash, IsTSpecial, IsDigit;
    Absorb((y: Text) => InUri(v, y), (c: Chr) => !IsCtl(c) && c != SP, [], u);
    assert [] + u == u;
    OneOn(InUri(v, []), u, InUri(v, u), SP, InName(v, u, 0));
  }

  lemma HttpRead(v: Text, u: Text)
    ensures Recognize(InName(v, u, 0), HttpSlash()) == Some(InMajor(v, u, []))
  {
    var h, p := HttpSlash(), InName(v, u, 0);
    assert Recognize(p, h[..0]) == Some(p);
    OneOn(p, h[..0], p, h[0], InName(v, u, 1));
    assert h[..1] == h[..0] + [h[0]];
    OneOn(p, h[..1], InName(v, u, 1), h[1], InName(v, u, 2));
    assert h[..2] == h[..1] + [h[1]];
    OneOn(p, h[..2], InName(v, u, 2), h[2], InName(v, u, 3));
    assert h[..3] == h[..2] + [h[2]];
    OneOn(p, h[..3], InName(v, u, 3), h[3], InName(v, u, 4));
    assert h[..4] == h[..3] + [h[3]];
    OneOn(p, h[..4], InName(v, u, 4), h[4], InMajor(v, u, []));
    assert h == h[..4] + [h[4]];
  }

  lemma MajorRead(v: Text, u: Text, m: Text)
    requires m != [] && AllDigit(m)
    ensures Recognize(InMajor(v, u, []), m + [DOT]) == Some(InMinor(Line(v, u, m, [])))
  {
    hide Recognize, HttpSlash;
    Absorb((y: Text) => InMajor(v, u, y), (c: Chr) => IsDigit(c), [], m);
    assert [] + m == m;
    OneOn(InMajor(v, u, []), m, InMajor(v, u, m), DOT, InMinor(Line(v, u, m, [])));
  }

  lemma MinorRead(l: Line)
    requires l.minor != [] && AllDigit(l.minor)
    ensures Recognize(InMinor(l.(minor := [])), l.minor + [CR, LF]) == Some(AtStart(l, []))
  {
    hide Recognize, HttpSlash;
    var p := InMinor(l.(minor := []));
    Absorb((y: Text) => InMinor(l.(minor := y)), (c: Chr) => IsDigit(c), [], l.minor);
    assert [] + l.minor == l.minor && l.(minor := l.minor) == l;
    OneOn(p, l.minor, InMinor(l), CR, LineEnd(l));
    OneOn(p, l.minor + [CR], LineEnd(l), LF, AtStart(l, []));
    assert l.minor + [CR] + [LF] == l.minor + [CR, LF];
  }

  lemma LineRead(l: Line)
    requires LineOk(l)
    ensures Recognize(InVerb([]), LineText(l)) == Some(AtStart(l, []))
  {
    hide Recognize, HttpSlash, AllToken, AllDigit, NoCtl, NoSpace;
    var v, u, m := l.verb, l.uri, l.major;
    VerbRead(v);
    UriRead(v, u);
    HttpRead(v, u);
    MajorRead(v, u, m);
    MinorRead(l);
    var p := InVerb([]);
    RecognizeOn(p, v + [SP], InUri(v, []), u + [SP]);
    RecognizeOn(p, v + [SP] + (u + [SP]), InName(v, u, 0), HttpSlash());
    RecognizeOn(p, v + [SP] + (u + [SP]) + HttpSlash(), InMajor(v, u, []), m + [DOT]);
    RecognizeOn(p, v + [SP] + (u + [SP]) + HttpSlash() + (m + [DOT]), InMinor(l.(minor := [])), l.minor + [CR, LF]);
    assert LineText(l) == v + [SP] + (u + [SP]) + HttpSlash() + (m + [DOT]) + (l.minor + [CR, LF]);
  }

  lemma NameRead(l: Line, fs: seq<Field>, n: Text)
    requires n != [] && AllToken(n)
    ensures Recognize(AtStart(l, fs), n + [COLON, SP]) == Some(InFirst(l, fs, Field(n, [], [])))
  {
    var p := AtStart(l, fs);
    assert Recognize(p, []) == Some(p);
    OneOn(p, [], p, n[0], InFieldName(l, fs, [n[0]]));
    Absorb((y: Text) => InFieldName(l, fs, y), (c: Chr) => IsToken(c), [n[0]], n[1..]);
    RecognizeOn(p, [] + [n[0]], InFieldName(l, fs, [n[0]]), n[1..]);
    assert [] + [n[0]] + n[1..] == n && [n[0]] + n[1..] == n;
    OneOn(p, n, InFieldName(l, fs, n), COLON, BeforeValue(l, fs, n));
    OneOn(p, n + [COLON], BeforeValue(l, fs, n), SP, InFirst(l, fs, Field(n, [], [])));
    assert n + [COLON] + [SP] == n + [COLON, SP];
  }

  lemma FirstRead(l: Line, fs: seq<Field>, n: Text, v: Text)
    requires NoCtl(v)
    ensures Recognize(InFirst(l, fs, Field(n, [], [])), v + [CR, LF]) == Some(AtStart(l, fs + [Field(n, v, [])]))
  {
    hide Recognize, HttpSlash, IsTSpecial, IsDigit;
    var p, f := InFirst(l, fs, Field(n, [], [])), Field(n, v, []);
    Absorb((y: Text) => InFirst(l, fs, Field(n, y, [])), (c: Chr) => !IsCtl(c), [], v);
    assert [] + v == v;
    OneOn(p, v, InFirst(l, fs, f), CR, FieldEnd(l, fs + [f]));
    OneOn(p, v + [CR], FieldEnd(l, fs + [f]), LF, AtStart(l, fs + [f]));
    assert v + [CR] + [LF] == v + [CR, LF];
  }

  lemma BlanksRead(l: Line, fs: seq<Field>, f: Field, b: Text)
    requires b != [] && AllBlank(b)
    ensures Recognize(AtStart(l, fs + [f]), b) == Some(InFold(l, fs, f, Fold(b, [])))
  {
    var p := AtStart(l, fs + [f]);
    assert Recognize(p, []) == Some(p);
    assert Front(fs + [f]) == fs && LastOf(fs + [f]) == f;
    OneOn(p, [], p, b[0], InFold(l, fs, f, Fold([b[0]], [])));
    Absorb((y: Text) => InFold(l, fs, f, Fold(y, [])), (c: Chr) => IsBlank(c), [b[0]], b[1..]);
    RecognizeOn(p, [] + [b[0]], InFold(l, fs, f, Fold([b[0]], [])), b[1..]);
    assert [] + [b[0]] + b[1..] == b && [b[0]] + b[1..] == b;
  }

  lemma FoldTextRead(l: Line, fs: seq<Field>, f: Field, d: Fold)
    requires FoldOk(d)
    ensures Recognize(InFold(l, fs, f, Fold(d.blanks, [])), d.text) == Some(InFold(l, fs, f, d))
  {
    if d.text != [] {
      var p, t := InFold(l, fs, f, Fold(d.blanks, [])), d.text;
      assert Recognize(p, []) == Some(p) && [] + [t[0]] == [t[0]];
      OneOn(p, [], p, t[0], InFold(l, fs, f, Fold(d.blanks, [t[0]])));
      TextRead(l, fs, f, d.blanks, t[0], t[1..]);
      RecognizeOn(p, [] + [t[0]], InFold(l, fs, f, Fold(d.blanks, [t[0]])), t[1..]);
      assert [] + [t[0]] + t[1..] == t && [t[0]] + t[1..] == t;
    }
  }

  lemma TextRead(l: Line, fs: seq<Field>, f: Field, b: Text, c0: Chr, w: Text)
    requires NoCtl(w)
    ensures Recognize(InFold(l, fs, f, Fold(b, [c0])), w) == Some(InFold(l, fs, f, Fold(b, [c0] + w)))
  {
    forall y: Text, c: Chr | !IsCtl(c)
      ensures More(InFold(l, fs, f, Fold(b, [c0] + y)), c) == Some(InFold(l, fs, f, Fold(b, [c0] + (y + [c]))))
    {
      assert [c0] + y + [c] == [c0] + (y + [c]);
    }
    Absorb((y: Text) => InFold(l, fs, f, Fold(b, [c0] + y)), (c: Chr) => !IsCtl(c), [], w);
    assert [c0] + [] == [c0] && [] + w == w;
  }

  lemma FoldRead(l: Line, fs: seq<Field>, f: Field, d: Fold)
    requires FoldOk(d)
    ensures Recognize(AtStart(l, fs + [f]), FoldText(d)) == Some(AtStart(l, fs + [Closed(f, d)]))
  {
    hide Recognize;
    var p, b, t := AtStart(l, fs + [f]), d.blanks, d.text;
    var g := fs + [Closed(f, d)];
    BlanksRead(l, fs, f, b);
    FoldTextRead(l, fs, f, d);
    RecognizeOn(p, b, InFold(l, fs, f, Fold(b, [])), t);
    OneOn(p, b + t, InFold(l, fs, f, d), CR, FieldEnd(l, g));
    OneOn(p, b + t + [CR], FieldEnd(l, g), LF, AtStart(l, g));
    assert b + t + [CR] + [LF] == FoldText(d);
  }

  lemma {:induction false} FoldsRead(l: Line, fs: seq<Field>, f: Field, folds: seq<Fold>)
    requires f.folds == [] && forall i :: 0 <= i < |folds| ==> FoldOk(folds[i])
    ensures Recognize(AtStart(l, fs + [f]), FoldsText(folds)) == Some(AtStart(l, fs + [f.(folds := folds)]))
    decreases |folds|
  {
    hide More, FoldText, FoldOk;
    if folds == [] {
      assert f.(folds := []) == f;
    } else {
      var n := |folds| - 1;
      var f' := f.(folds := folds[..n]);
      FoldsRead(l, fs, f, folds[..n]);
      FoldRead(l, fs, f', folds[n]);
      RecognizeOn(AtStart(l, fs + [f]), FoldsText(folds[..n]), AtStart(l, fs + [f']), FoldText(folds[n]));
      assert folds[..n] + [folds[n]] == folds;
    }
  }

  lemma FieldRead(l: Line, fs: seq<Field>, f: Field)
    requires FieldOk(f)
    ensures Recognize(AtStart(l, fs), FieldText(f)) == Some(AtStart(l, fs + [f]))
  {
    hide Recognize, More, FoldsText, AllToken, NoCtl, FoldOk;
    var p, f0 := AtStart(l, fs), Field(f.name, f.first, []);
    NameRead(l, fs, f.name);
    FirstRead(l, fs, f.name, f.first);
    FoldsRead(l, fs, f0, f.folds);
    var a, b := f.name + [COLON, SP], f.first + [CR, LF];
    RecognizeOn(p, a, InFirst(l, fs, Field(f.name, [], [])), b);
    RecognizeOn(p, a + b, AtStart(l, fs + [f0]), FoldsText(f.folds));
    assert a + b == a + f.first + [CR, LF];
  }

  lemma {:induction false} FieldsRead(l: Line, fs: seq<Field>)
    requires FieldsOk(fs)
    ensures Recognize(AtStart(l, []), FieldsText(fs)) == Some(AtStart(l, fs))
    decreases |fs|
  {
    hide More, FieldText, FieldOk;
    if fs != [] {
      var n := |fs| - 1;
      FieldsRead(l, fs[..n]);
      FieldRead(l, fs[..n], fs[n]);
      RecognizeOn(AtStart(l, []), FieldsText(fs[..n]), AtStart(l, fs[..n]), FieldText(fs[n]));
      assert fs[..n] + [fs[n]] == fs;
    }
  }

  lemma TreeRead(t: Tree)
    requires TreeOk(t)
    ensures Recognize(InVerb([]), LineText(t.line) + FieldsText(t.fields) + [CR]) == Some(End(t.line, t.fields))
  {
    hide Recognize, LineText, FieldsText, LineOk, FieldsOk;
    var l, fs := t.line, t.fields;
    LineRead(l);
    FieldsRead(l, fs);
    RecognizeOn(InVerb([]), LineText(l), AtStart(l, []), FieldsText(fs));
    OneOn(InVerb([]), LineText(l) + FieldsText(fs), AtStart(l, fs), CR, End(l, fs));
  }

  /* ----- the main results ----- */

  /** The text of any tree, whatever follows it, is accepted; exactly that text
      is read, and the request is what the tree means. */
  lemma GrammaticalIsGood(t: Tree, rest: Text)
    requires TreeOk(t)
    ensures Run(Fresh(), Render(t) + rest) == Parsed(Good, Conf(Newline3, Meaning(t)), |Render(t)|)
  {
    hide PartialOk, Recognize, LineText, FieldsText, TreeOk, Run, Seen;
    var s := LineText(t.line) + FieldsText(t.fields) + [CR];
    var q := End(t.line, t.fields);
    FreshConf();
    TreeRead(t);
    RecognizedRuns(InVerb([]), s, q);
    EndMeans(q, t);
    RunInPieces(Fresh(), s, [LF] + rest);
    LastStep(ConfOf(q), rest);
    assert Seen(q) == s;
    assert Render(t) + rest == s + ([LF] + rest);
  }

  lemma LastStep(k: Conf, rest: Text)
    requires k.state == Newline3
    ensures Run(k, [LF] + rest) == Parsed(Good, k, 1)
  {
    assert ([LF] + rest)[0] == LF;
  }

  /** The grammar is unambiguous: different trees have different texts. */
  lemma RenderInjective(t: Tree, t': Tree)
    requires TreeOk(t) && TreeOk(t') && Render(t) == Render(t')
    ensures t == t'
  {
    hide Recognize, LineText, FieldsText, TreeOk;
    TreeRead(t);
    TreeRead(t');
    assert Render(t)[..|Render(t)| - 1] == LineText(t.line) + FieldsText(t.fields) + [CR];
    assert Render(t')[..|Render(t')| - 1] == LineText(t'.line) + FieldsText(t'.fields) + [CR];
  }
}
