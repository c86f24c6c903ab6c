/** The HTTP request parser: one character at a time, any number of pieces. */
module HttpParser {

  /** A character as the parser's `int` arguments see it. */
  type Chr = c: int | -128 <= c < 128

  type Text = seq<Chr>

  const SP: Chr := 32
  const HT: Chr := 9
  const CR: Chr := 13
  const LF: Chr := 10
  const COLON: Chr := 58
  const DOT: Chr := 46
  const ZERO: Chr := 48

  function HttpSlash(): Text { [72, 84, 84, 80, 47] }   // "HTTP/"

  /* ----- character classes ----- */

  predicate IsChar(c: Chr) { 0 <= c <= 127 }

  predicate IsCtl(c: Chr) { 0 <= c <= 31 || c == 127 }

  /** ( ) < > @ , ; : \ " / [ ] ? = { } space tab */
  predicate IsTSpecial(c: Chr) {
    c in {40, 41, 60, 62, 64, 44, 59, 58, 92, 34, 47, 91, 93, 63, 61, 123, 125, 32, 9}
  }

  predicate IsDigit(c: Chr) { 48 <= c <= 57 }

  predicate IsToken(c: Chr) { IsChar(c) && !IsCtl(c) && !IsTSpecial(c) }

  predicate IsBlank(c: Chr) { c == SP || c == HT }

  /* ----- requests ----- */

  datatype Header = Header(name: Text, value: Text)

  datatype Request = Request(verb: Text, uri: Text, major: nat, minor: nat, headers: seq<Header>)

  datatype State =
    | MethodStart | Method | Uri | VersionH | VersionT1 | VersionT2 | VersionP | VersionSlash
    | MajorStart | Major | MinorStart | Minor | Newline1 | HeaderLineStart | HeaderLws | HeaderName
    | SpaceBeforeValue | HeaderValue | Newline2 | Newline3

  datatype Result = Good | Bad | Indeterminate

  /** Parser state and the request built so far. */
  datatype Conf = Conf(state: State, req: Request)

  function Fresh(): Conf {
    Conf(MethodStart, Request([], [], 0, 0, []))
  }

  function AddToName(hs: seq<Header>, c: Chr): seq<Header> {
    if hs == [] then hs else hs[|hs| - 1 := hs[|hs| - 1].(name := hs[|hs| - 1].name + [c])]
  }

  function AddToValue(hs: seq<Header>, c: Chr): seq<Header> {
    if hs == [] then hs else hs[|hs| - 1 := hs[|hs| - 1].(value := hs[|hs| - 1].value + [c])]
  }

  /* ----- one character ----- */

  function Go(state: State, req: Request): (Result, Conf) {
    (Indeterminate, Conf(state, req))
  }

  /** What `consume` does in the request line. */
  function LineStep(k: Conf, c: Chr): (Result, Conf) {
    var r := k.req;
    match k.state
    case MethodStart => if IsToken(c) then Go(Method, r.(verb := r.verb + [c])) else (Bad, k)
    case Method =>
      if c == SP then Go(Uri, r) else if IsToken(c) then Go(Method, r.(verb := r.verb + [c])) else (Bad, k)
    case Uri =>
      if c == SP then Go(VersionH, r) else if IsCtl(c) then (Bad, k) else Go(Uri, r.(uri := r.uri + [c]))
    case VersionH => if c == HttpSlash()[0] then Go(VersionT1, r) else (Bad, k)
    case VersionT1 => if c == HttpSlash()[1] then Go(VersionT2, r) else (Bad, k)
    case VersionT2 => if c == HttpSlash()[2] then Go(VersionP, r) else (Bad, k)
    case VersionP => if c == HttpSlash()[3] then Go(VersionSlash, r) else (Bad, k)
    case VersionSlash => if c == HttpSlash()[4] then Go(MajorStart, r.(major := 0, minor := 0)) else (Bad, k)
    case MajorStart => if IsDigit(c) then Go(Major, r.(major := r.major * 10 + (c - ZERO))) else (Bad, k)
    case Major =>
      if c == DOT then Go(MinorStart, r)
      else if IsDigit(c) then Go(Major, r.(major := r.major * 10 + (c - ZERO))) else (Bad, k)
    case MinorStart => if IsDigit(c) then Go(Minor, r.(minor := r.minor * 10 + (c - ZERO))) else (Bad, k)
    case Minor =>
      if c == CR then Go(Newline1, r)
      else if IsDigit(c) then Go(Minor, r.(minor := r.minor * 10 + (c - ZERO))) else (Bad, k)
    case Newline1 => if c == LF then Go(HeaderLineStart, r) else (Bad, k)
    case _ => (Bad, k)
  }

  /** And behind it. */
  function HeaderStep(k: Conf, c: Chr): (Result, Conf) {
    var r := k.req;
    match k.state
    case HeaderLineStart =>
      if c == CR then Go(Newline3, r)
      else if r.headers != [] && IsBlank(c) then Go(HeaderLws, r)
      else if IsToken(c) then Go(HeaderName, r.(headers := r.headers + [Header([c], [])]))
      else (Bad, k)
    case HeaderLws =>
      if c == CR then Go(Newline2, r)
      else if IsBlank(c) then Go(HeaderLws, r)
      else if IsCtl(c) then (Bad, k)
      else Go(HeaderValue, r.(headers := AddToValue(r.headers, c)))
    case HeaderName =>
      if c == COLON then Go(SpaceBeforeValue, r)
      else if IsToken(c) then Go(HeaderName, r.(headers := AddToName(r.headers, c)))
      else (Bad, k)
    case SpaceBeforeValue => if c == SP then Go(HeaderValue, r) else (Bad, k)
    case HeaderValue =>
      if c == CR then Go(Newline2, r)
      else if IsCtl(c) then (Bad, k)
      else Go(HeaderValue, r.(headers := AddToValue(r.headers, c)))
    case Newline2 => if c == LF then Go(HeaderLineStart, r) else (Bad, k)
    case Newline3 => (if c == LF then Good else Bad, k)
    case _ => (Bad, k)
  }

  predicate InLine(s: State) {
    !(s.HeaderLineStart? || s.HeaderLws? || s.HeaderName? || s.SpaceBeforeValue? || s.HeaderValue?
      || s.Newline2? || s.Newline3?)
  }

  function Step(k: Conf, c: Chr): (Result, Conf) {
    if InLine(k.state) then LineStep(k, c) else HeaderStep(k, c)
  }

  /* ----- any number of characters ----- */

  datatype Parsed = Parsed(result: Result, conf: Conf, used: nat)

  function Run(k: Conf, s: Text): (p: Parsed)
    ensures p.used <= |s|
    decreases |s|
  {
    if s == [] then Parsed(Indeterminate, k, 0)
    else
      var (r, k') := Step(k, s[0]);
      if r != Indeterminate then Parsed(r, k', 1)
      else var p := Run(k', s[1..]); p.(used := p.used + 1)
  }

  /** Parsing in pieces: as long as more is wanted, going on with the next piece
      is the same as parsing both at once; and nothing is read behind the end. */
  lemma {:induction false} RunInPieces(k: Conf, s: Text, t: Text)
    ensures var p := Run(k, s);
      Run(k, s + t) ==
        if p.result == Indeterminate then Run(p.conf, t).(used := |s| + Run(p.conf, t).used) else p
    decreases |s|
  {
    if s == [] {
      assert s + t == t;
    } else {
      assert (s + t)[0] == s[0] && (s + t)[1..] == s[1..] + t;
      RunInPieces(Step(k, s[0]).1, s[1..], t);
    }
  }

  /* ----- the parser object ----- */

  /** The request a connection fills in. */
  class RequestData {
    var verb: Text
    var uri: Text
    var major: nat
    var minor: nat
    var headers: seq<Header>

    constructor ()
      ensures Value() == Fresh().req
    {
      verb, uri, major, minor, headers := [], [], 0, 0, [];
    }

    function Value(): Request
      reads this
    {
      Request(verb, uri, major, minor, headers)
    }
  }

  class RequestParser {
    var state: State

    constructor ()
      ensures state == MethodStart
    {
      state := MethodStart;
    }

    method Reset()
      modifies this
      ensures state == MethodStart
    {
      state := MethodStart;
    }

    /** The next character, in the request line. */
    method ConsumeLine(req: RequestData, input: Chr) returns (r: Result)
      requires InLine(state)
      modifies this, req
      ensures (r, Conf(state, req.Value())) == LineStep(old(Conf(state, req.Value())), input)
    {
      r := Indeterminate;
      match state
      case MethodStart =>
        if !IsChar(input) || IsCtl(input) || IsTSpecial(input) {
          return Bad;
        }
        state := Method;
        req.verb := req.verb + [input];
      case Method =>
        if input == SP {
          state := Uri;
        } else if !IsChar(input) || IsCtl(input) || IsTSpecial(input) {
          return Bad;
        } else {
          req.verb := req.verb + [input];
        }
      case Uri =>
        if input == SP {
          state := VersionH;
        } else if IsCtl(input) {
          return Bad;
        } else {
          req.uri := req.uri + [input];
        }
      case VersionH =>
        if input != HttpSlash()[0] {
          return Bad;
        }
        state := VersionT1;
      case VersionT1 =>
        if input != HttpSlash()[1] {
          return Bad;
        }
        state := VersionT2;
      case VersionT2 =>
        if input != HttpSlash()[2] {
          return Bad;
        }
        state := VersionP;
      case VersionP =>
        if input != HttpSlash()[3] {
          return Bad;
        }
        state := VersionSlash;
      case VersionSlash =>
        if input != HttpSlash()[4] {
          return Bad;
        }
        req.major := 0;
        req.minor := 0;
        state := MajorStart;
      case MajorStart =>
        if !IsDigit(input) {
          return Bad;
        }
        req.major := req.major * 10 + input - ZERO;
        state := Major;
      case Major =>
        if input == DOT {
          state := MinorStart;
        } else if IsDigit(input) {
          req.major := req.major * 10 + input - ZERO;
        } else {
          return Bad;
        }
      case MinorStart =>
        if !IsDigit(input) {
          return Bad;
        }
        req.minor := req.minor * 10 + input - ZERO;
        state := Minor;
      case Minor =>
        if input == CR {
          state := Newline1;
        } else if IsDigit(input) {
          req.minor := req.minor * 10 + input - ZERO;
        } else {
          return Bad;
        }
      case Newline1 =>
        if input != LF {
          return Bad;
        }
        state := HeaderLineStart;
    }

    /** The next character, behind the request line. */
    method ConsumeHeader(req: RequestData, input: Chr) returns (r: Result)
      requires !InLine(state)
      modifies this, req
      ensures (r, Conf(state, req.Value())) == HeaderStep(old(Conf(state, req.Value())), input)
    {
      r := Indeterminate;
      match state
      case HeaderLineStart =>
        if input == CR {
          state := Newline3;
        } else if req.headers != [] && (input == SP || input == HT) {
          state := HeaderLws;
        } else if !IsChar(input) || IsCtl(input) || IsTSpecial(input) {
          return Bad;
        } else {
          req.headers := req.headers + [Header([input], [])];
          state := HeaderName;
        }
      case HeaderLws =>
        if input == CR {
          state := Newline2;
        } else if input == SP || input == HT {
        } else if IsCtl(input) {
          return Bad;
        } else {
          state := HeaderValue;
          req.headers := AddToValue(req.headers, input);
        }
      case HeaderName =>
        if input == COLON {
          state := SpaceBeforeValue;
        } else if !IsChar(input) || IsCtl(input) || IsTSpecial(input) {
          return Bad;
        } else {
          req.headers := AddToName(req.headers, input);
        }
      case SpaceBeforeValue =>
        if input != SP {
          return Bad;
        }
        state := HeaderValue;
      case HeaderValue =>
        if input == CR {
          state := Newline2;
        } else if IsCtl(input) {
          return Bad;
        } else {
          req.headers := AddToValue(req.headers, input);
        }
      case Newline2 =>
        if input != LF {
          return Bad;
        }
        state := HeaderLineStart;
      case Newline3 =>
        r := if input == LF then Good else Bad;
    }

    method Consume(req: RequestData, input: Chr) returns (r: Result)
      modifies this, req
      ensures (r, Conf(state, req.Value())) == Step(old(Conf(state, req.Value())), input)
    {
      if InLine(state) {
        r := ConsumeLine(req, input);
      } else {
        r := ConsumeHeader(req, input);
      }
    }

    /** One piece of input: characters are consumed until the request is
        complete or bad, or the piece is used up. */
    method Parse(req: RequestData, input: Text) returns (r: Result, used: nat)
      modifies this, req
      ensures Parsed(r, Conf(state, req.Value()), used) == Run(old(Conf(state, req.Value())), input)
    {
      used := 0;
      ghost var k0 := Conf(state, req.Value());
      while used != |input|
        invariant used <= |input|
        invariant Ahead(used, Run(Conf(state, req.Value()), input[used..])) == Run(k0, input)
        decreases |input| - used
      {
        assert input[used..][0] == input[used] && input[used..][1..] == input[used + 1..];
        r := Consume(req, input[used]);
        used := used + 1;
        if r == Good || r == Bad {
          return;
        }
      }
      r := Indeterminate;
    }
  }

  /** An answer n characters further on. */
  function Ahead(n: nat, p: Parsed): Parsed {
    p.(used := n + p.used)
  }
}
