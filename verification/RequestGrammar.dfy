// The language of request lines, declaratively: a line is cut into its parts at
// the positions of a `Layout`, and `Matches` says which bytes may stand in each
// part.  The main result is `ExactLanguage`: the state machine answers OK exactly
// on these lines, consumes exactly through the LF and leaves exactly `Fields`.
module RequestGrammar {
  import opened Bytes
  import opened RequestLine
  import opened UriFacts
  import opened RequestReading

  // Where the parts of a request line lie; NIL for a part that is not there.
  datatype Layout = Layout(
    start: Offset,      // the first byte of the method
    tokenEnd: Offset,   // the byte after it
    target: Offset,     // the first byte of the target
    colon: Offset,      // the ':' after a scheme, NIL when the target is a path
    hostEnd: Offset,    // the byte after the host
    portEnd: Offset,    // the byte after the port
    path: Offset,       // the '/' that begins the path
    targetEnd: Offset,  // the byte after the target
    proto: Offset,      // the 'H' of "HTTP/"
    dot: Offset,        // the byte after the major digits
    minorEnd: Offset,   // the byte after the minor digits
    eol: Offset,        // the CR or LF that ends the line
    lf: Offset)         // its LF
  {
    function AuthorityEnd(): Offset {
      if portEnd == NIL then hostEnd else portEnd
    }
  }

  // (CR | LF)* [A-Z_]+ SP+
  ghost predicate MatchesMethod(buf: seq<byte>, l: Layout) {
    && Span(buf, 0, l.start, Blank)
    && l.start < l.tokenEnd < l.target
    && Span(buf, l.start, l.tokenEnd, Token)
    && Span(buf, l.tokenEnd, l.target, Space)
  }

  // '/' followed by target bytes
  ghost predicate MatchesPath(buf: seq<byte>, l: Layout) {
    && 0 <= l.path < l.targetEnd < |buf| && buf[l.path] == SLASH
    && Span(buf, l.path + 1, l.targetEnd, Target) && buf[l.targetEnd] in {SP, CR, LF}
  }

  // scheme "://" host [":" port]
  ghost predicate MatchesAuthority(buf: seq<byte>, l: Layout) {
    && l.target < l.colon && Span(buf, l.target, l.colon, Letter)
    && Reads(buf, l.colon, COLON_SLASHES)
    && Span(buf, l.colon + 3, l.hostEnd, HostChar)
    && (l.portEnd != NIL ==>
          && l.hostEnd < l.portEnd && Span(buf, l.hostEnd + 1, l.portEnd, Digit)
          && buf[l.hostEnd] == COLON)
  }

  // What follows an authority: a path, or else a SP.
  ghost predicate MatchesAfterAuthority(buf: seq<byte>, l: Layout) {
    if l.path == NIL then
      l.targetEnd == l.AuthorityEnd() && 0 <= l.targetEnd < |buf| && buf[l.targetEnd] == SP
    else
      l.path == l.AuthorityEnd() && MatchesPath(buf, l)
  }

  ghost predicate MatchesTarget(buf: seq<byte>, l: Layout) {
    if l.colon == NIL then
      l.path == l.target && MatchesPath(buf, l) && l.hostEnd == NIL && l.portEnd == NIL
    else
      MatchesAuthority(buf, l) && MatchesAfterAuthority(buf, l)
  }

  // SP*, or SP+ "HTTP/" [1-9][0-9]* "." [0-9]+ SP*
  ghost predicate MatchesVersion(buf: seq<byte>, l: Layout) {
    if l.proto == NIL then
      l.dot == NIL && l.minorEnd == NIL && Span(buf, l.targetEnd, l.eol, Space)
    else
      && l.targetEnd < l.proto && Span(buf, l.targetEnd, l.proto, Space)
      && Reads(buf, l.proto, HTTP_SLASH)
      && l.proto + 5 < l.dot && Span(buf, l.proto + 5, l.dot, Digit) && buf[l.proto + 5] != 48
      && l.dot + 1 < l.minorEnd && Span(buf, l.dot + 1, l.minorEnd, Digit) && buf[l.dot] == DOT
      && Span(buf, l.minorEnd, l.eol, Space)
  }

  // CR? LF
  ghost predicate MatchesEnd(buf: seq<byte>, l: Layout) {
    && 0 <= l.eol <= l.lf < |buf| && buf[l.lf] == LF
    && (l.eol == l.lf || (l.lf == l.eol + 1 && buf[l.eol] == CR))
  }

  ghost function MajorOf(buf: seq<byte>, l: Layout): nat {
    if l.proto == NIL then 0 else Number(buf, l.proto + 5, l.dot)
  }

  ghost function MinorOf(buf: seq<byte>, l: Layout): nat {
    if l.proto == NIL then 9 else Number(buf, l.dot + 1, l.minorEnd)
  }

  ghost function VerbOf(buf: seq<byte>, l: Layout): int {
    MethodOf(Slice(buf, l.start, l.tokenEnd), 0)
  }

  // A request line as section 5.1 of RFC 2616 and section 4.1 of RFC 1945
  // describe it and the source accepts it.  Version 9 is for GET only.
  ghost predicate Matches(buf: seq<byte>, l: Layout) {
    && MatchesMethod(buf, l) && MatchesTarget(buf, l) && MatchesVersion(buf, l) && MatchesEnd(buf, l)
    && (MajorOf(buf, l) * 1000 + MinorOf(buf, l) == 9 ==> VerbOf(buf, l) == HTTP_GET)
  }

  ghost function AuthorityOf(l: Layout): Authority {
    if l.colon == NIL then FRESH.auth
    else Authority(l.target, l.colon, l.colon + 3, l.hostEnd, l.portEnd)
  }

  ghost function UriOf(buf: seq<byte>, l: Layout): UriPart {
    if MatchesPath(buf, l) then
      UriPart(l.path, l.targetEnd,
              Extension(buf, l.path, FirstStop(buf, l.path, l.targetEnd)),
              ArgsStart(buf, l.path, l.targetEnd),
              Complex(buf, l.path, l.targetEnd),
              Quoted(buf, l.path, l.targetEnd),
              Occurs(buf, l.path, FirstStop(buf, l.path, l.targetEnd), PLUS))
    else
      UriPart(l.colon + 1, l.colon + 2, NIL, NIL, false, false, false)
  }

  // Every field of the request, as the layout determines it.
  ghost function Fields(buf: seq<byte>, l: Layout): Line {
    Line(Start, VerbOf(buf, l), l.start, l.eol, l.tokenEnd - 1, AuthorityOf(l), UriOf(buf, l),
         Version(l.proto, MajorOf(buf, l), MinorOf(buf, l), MajorOf(buf, l) * 1000 + MinorOf(buf, l)))
  }

  // ------------------------------------------------------------------
  // Every line that matches is read.

  lemma ReadsEnd(buf: seq<byte>, s: Line, l: Layout)
    requires MatchesEnd(buf, l)
    ensures ReadEnd(buf, s, l.eol) == Settle(s.(requestEnd := l.eol), l.lf)
  {
  }

  lemma ReadsVersion(buf: seq<byte>, s: Line, l: Layout)
    requires 0 <= l.targetEnd && MatchesVersion(buf, l) && MatchesEnd(buf, l)
    requires s.version.protocol == NIL && s.version.major == 0
    ensures ReadVersion(buf, s, l.targetEnd) ==
            Settle(s.(requestEnd := l.eol,
                      version := s.version.(protocol := l.proto, major := MajorOf(buf, l), minor := MinorOf(buf, l))),
                   l.lf)
  {
    if l.proto == NIL {
      SkipIsMaximal(buf, l.targetEnd, l.eol, Space);
      ReadsEnd(buf, SetMinor(s, 9), l);
    } else {
      var t := s.(version := s.version.(protocol := l.proto));
      assert HTTP_SLASH[0] == buf[l.proto + 0] == 72;
      SkipIsMaximal(buf, l.targetEnd, l.proto, Space);
      assert ReadVersion(buf, s, l.targetEnd) == ReadMajor(buf, t, l.proto + 5);
      ReadsMajor(buf, t, l);
    }
  }

  lemma ReadsMajor(buf: seq<byte>, s: Line, l: Layout)
    requires 0 <= l.proto && MatchesVersion(buf, l) && MatchesEnd(buf, l)
    ensures ReadMajor(buf, s, l.proto + 5) ==
            Settle(s.(requestEnd := l.eol,
                      version := s.version.(major := MajorOf(buf, l), minor := MinorOf(buf, l))), l.lf)
  {
    var t := SetMajor(s, MajorOf(buf, l));
    SkipIsMaximal(buf, l.proto + 5, l.dot, Digit);
    assert IsDigit(buf[l.proto + 5]) && IsDigit(buf[l.dot + 1]);
    assert !IsDigit(buf[l.minorEnd]) by {
      if l.minorEnd < l.eol { assert Space.Has(buf[l.minorEnd]); }
    }
    SkipIsMaximal(buf, l.dot + 1, l.minorEnd, Digit);
    SkipIsMaximal(buf, l.minorEnd, l.eol, Space);
    ReadsEnd(buf, SetMinor(t, MinorOf(buf, l)), l);
  }

  // The fields once the path, the version and the end have been read as well.
  ghost function Filled(buf: seq<byte>, s: Line, l: Layout): Line {
    Line(Start, s.verb, s.requestStart, l.eol, s.methodEnd, s.auth, UriOf(buf, l),
         Version(l.proto, MajorOf(buf, l), MinorOf(buf, l), 0))
  }

  lemma ReadsPath(buf: seq<byte>, s: Line, l: Layout)
    requires MatchesPath(buf, l) && s.state == Start
    ensures ReadPath(buf, s, l.path) == ReadAfterPath(buf, s.(uri := UriOf(buf, l)), l.targetEnd)
  {
    SkipIsMaximal(buf, l.path + 1, l.targetEnd, Target);
    assert PathRead(buf, s, l.path, l.targetEnd) == s.(uri := UriOf(buf, l));
  }

  lemma ReadsAfterPath(buf: seq<byte>, t: Line, l: Layout)
    requires 0 <= l.targetEnd < |buf| && MatchesVersion(buf, l) && MatchesEnd(buf, l) && buf[l.targetEnd] in {SP, CR, LF}
    requires t.state == Start && t.version == FRESH.version && t.uri == UriOf(buf, l)
    ensures ReadAfterPath(buf, t, l.targetEnd) == Settle(Filled(buf, t, l), l.lf)
  {
    var done := t.(requestEnd := l.eol,
                   version := t.version.(protocol := l.proto, major := MajorOf(buf, l), minor := MinorOf(buf, l)));
    assert done == Filled(buf, t, l);
    if buf[l.targetEnd] == SP {
      ReadsVersion(buf, t, l);
      VersionAfterSpace(buf, t, l.targetEnd);
    } else {
      NoVersion(buf, t, l);
      ReadsEnd(buf, SetMinor(t, 9), l);
    }
  }

  lemma VersionAfterSpace(buf: seq<byte>, t: Line, e: nat)
    requires e < |buf| && buf[e] == SP
    ensures ReadAfterPath(buf, t, e) == ReadVersion(buf, t, e)
  {
    assert Skip(buf, e, Space) == Skip(buf, e + 1, Space);
  }

  // Without a SP after the path the line ends there.
  lemma NoVersion(buf: seq<byte>, t: Line, l: Layout)
    requires 0 <= l.targetEnd < |buf| && buf[l.targetEnd] in {CR, LF} && MatchesVersion(buf, l) && MatchesEnd(buf, l)
    requires t.version == FRESH.version
    ensures l.eol == l.targetEnd && l.proto == NIL
    ensures SetMinor(t, 9).(requestEnd := l.eol) ==
            t.(requestEnd := l.eol,
               version := t.version.(protocol := l.proto, major := MajorOf(buf, l), minor := MinorOf(buf, l)))
  {
    assert !Space.Has(buf[l.targetEnd]);
  }

  // The place where the path of a target begins, or would begin.
  ghost function PlaceOf(l: Layout): Place
    requires 0 <= l.targetEnd && (l.path != NIL ==> 0 <= l.path)
  {
    if l.path == NIL then SpaceAt(AuthorityOf(l), l.targetEnd) else PathAt(AuthorityOf(l), l.path)
  }

  lemma HostStops(buf: seq<byte>, l: Layout)
    requires 0 <= l.target && MatchesAuthority(buf, l)
    requires 0 <= l.AuthorityEnd() < |buf| && buf[l.AuthorityEnd()] in {SLASH, SP}
    ensures 0 <= l.colon + 3 <= l.hostEnd < |buf| && !HostChar.Has(buf[l.hostEnd])
    ensures buf[l.hostEnd] == COLON <==> l.portEnd != NIL
  {
  }

  lemma FindsAuthority(buf: seq<byte>, l: Layout)
    requires 0 <= l.target && MatchesAuthority(buf, l) && MatchesAfterAuthority(buf, l) && l.colon != NIL
    ensures FindHost(buf, FRESH.auth.(schemaStart := l.target, schemaEnd := l.colon), l.colon + 3) == PlaceOf(l)
  {
    HostStops(buf, l);
    SkipIsMaximal(buf, l.colon + 3, l.hostEnd, HostChar);
    if l.portEnd != NIL {
      SkipIsMaximal(buf, l.hostEnd + 1, l.portEnd, Digit);
    }
  }

  lemma FindsPath(buf: seq<byte>, l: Layout)
    requires 0 <= l.target && MatchesTarget(buf, l)
    ensures l.target < |buf| && buf[l.target] != SP
    ensures FindPath(buf, FRESH.auth, l.target) == PlaceOf(l)
  {
    if l.colon != NIL {
      FindsAuthority(buf, l);
      assert Letter.Has(buf[l.target]);
      assert COLON_SLASHES[0] == buf[l.colon + 0] == COLON;
      SkipIsMaximal(buf, l.target, l.colon, Letter);
    }
  }

  lemma ReadsWithoutPath(buf: seq<byte>, s: Line, l: Layout)
    requires l.colon != NIL && l.path == NIL && MatchesAfterAuthority(buf, l)
    requires MatchesVersion(buf, l) && MatchesEnd(buf, l)
    requires s.state == Start && s.version == FRESH.version && s.uri == FRESH.uri && s.auth.schemaEnd == l.colon
    ensures ReadVersion(buf, BorrowSlash(s).(state := Start), l.targetEnd + 1) == Settle(Filled(buf, s, l), l.lf)
  {
    var t := BorrowSlash(s).(state := Start);
    assert t.uri == UriOf(buf, l);
    assert Filled(buf, t, l) == Filled(buf, s, l);
    ReadsAfterPath(buf, t, l);
  }

  lemma ReadsPlace(buf: seq<byte>, s: Line, l: Layout)
    requires 0 <= l.target && MatchesTarget(buf, l) && MatchesVersion(buf, l) && MatchesEnd(buf, l)
    requires s.state == Start && s.version == FRESH.version && s.uri == FRESH.uri
    ensures Fits(buf, PlaceOf(l)) && ReadAt(buf, s, PlaceOf(l)) == Settle(Filled(buf, s.(auth := AuthorityOf(l)), l), l.lf)
  {
    if l.path == NIL {
      ReadsWithoutPath(buf, s.(auth := AuthorityOf(l)), l);
    } else {
      ReadsPathTarget(buf, s.(auth := AuthorityOf(l)), l);
    }
  }

  lemma ReadsTarget(buf: seq<byte>, s: Line, l: Layout)
    requires 0 <= l.target && MatchesTarget(buf, l) && MatchesVersion(buf, l) && MatchesEnd(buf, l)
    requires s.state == Start && s.version == FRESH.version && s.uri == FRESH.uri && s.auth == FRESH.auth
    ensures l.target < |buf| && buf[l.target] != SP
    ensures ReadTarget(buf, s, l.target) == Settle(Filled(buf, s.(auth := AuthorityOf(l)), l), l.lf)
  {
    FindsPath(buf, l);
    ReadsPlace(buf, s, l);
  }

  lemma ReadsPathTarget(buf: seq<byte>, s: Line, l: Layout)
    requires MatchesPath(buf, l) && MatchesVersion(buf, l) && MatchesEnd(buf, l)
    requires s.state == Start && s.version == FRESH.version
    ensures ReadPath(buf, s, l.path) == Settle(Filled(buf, s, l), l.lf)
  {
    ReadsPath(buf, s, l);
    ReadsAfterPath(buf, s.(uri := UriOf(buf, l)), l);
  }

  lemma ReadsMatch(buf: seq<byte>, l: Layout)
    requires Matches(buf, l)
    ensures l.lf >= 0 && ReadLine(buf) == Accept(Fields(buf, l), l.lf + 1)
  {
    assert Token.Has(buf[l.start]) && Space.Has(buf[l.tokenEnd]);
    SkipIsMaximal(buf, 0, l.start, Blank);
    SkipIsMaximal(buf, l.start, l.tokenEnd, Token);
    var s := AfterToken(buf, l.start, l.tokenEnd);
    ReadsTarget(buf, s, l);
    SkipIsMaximal(buf, l.tokenEnd, l.target, Space);
    assert ReadLine(buf) == ReadTarget(buf, s, l.target);
    FieldsAreFilled(buf, s, l);
  }

  lemma FieldsAreFilled(buf: seq<byte>, s: Line, l: Layout)
    requires MatchesMethod(buf, l) && 0 <= l.lf && s == AfterToken(buf, l.start, l.tokenEnd)
    ensures Settle(Filled(buf, s.(auth := AuthorityOf(l)), l), l.lf) ==
            if MajorOf(buf, l) * 1000 + MinorOf(buf, l) == 9 && VerbOf(buf, l) != HTTP_GET then Reject(Invalid09Method)
            else Accept(Fields(buf, l), l.lf + 1)
  {
    assert Slice(buf, l.start, l.tokenEnd) == buf[l.start..l.tokenEnd];
  }

  // ------------------------------------------------------------------
  // Every line that is read matches.

  const UNSET: Layout := Layout(NIL, NIL, NIL, NIL, NIL, NIL, NIL, NIL, NIL, NIL, NIL, NIL, NIL)

  lemma EndIsMatched(buf: seq<byte>, s: Line, p: nat, l: Layout) returns (k: Layout)
    requires p <= |buf| && ReadEnd(buf, s, p).Accept?
    ensures k == l.(eol := p, lf := k.lf) && MatchesEnd(buf, k) && ReadEnd(buf, s, p).pos == k.lf + 1
  {
    k := l.(eol := p, lf := if buf[p] == LF then p else p + 1);
  }

  lemma VersionIsMatched(buf: seq<byte>, s: Line, p: nat, l: Layout) returns (k: Layout)
    requires p <= |buf| && ReadVersion(buf, s, p).Accept?
    requires l.proto == NIL && l.dot == NIL && l.minorEnd == NIL && 0 <= l.targetEnd
    requires l.targetEnd == p || (l.targetEnd == p - 1 && buf[p - 1] == SP)
    requires l.targetEnd == p ==> p == |buf| || buf[p] == SP
    ensures MatchesVersion(buf, k) && MatchesEnd(buf, k) && ReadVersion(buf, s, p).pos == k.lf + 1
    ensures k == l.(proto := k.proto, dot := k.dot, minorEnd := k.minorEnd, eol := k.eol, lf := k.lf)
  {
    var v := Skip(buf, p, Space);
    assert Span(buf, l.targetEnd, v, Space);
    if v == |buf| || buf[v] != 72 {
      k := EndIsMatched(buf, SetMinor(s, 9), v, l);
    } else {
      k := MajorIsMatched(buf, s.(version := s.version.(protocol := v)), l.(proto := v));
    }
  }

  lemma MajorIsMatched(buf: seq<byte>, s: Line, l: Layout) returns (k: Layout)
    requires 0 <= l.targetEnd < l.proto && Span(buf, l.targetEnd, l.proto, Space) && Reads(buf, l.proto, HTTP_SLASH)
    requires ReadMajor(buf, s, l.proto + 5).Accept?
    ensures MatchesVersion(buf, k) && MatchesEnd(buf, k) && ReadMajor(buf, s, l.proto + 5).pos == k.lf + 1
    ensures k == l.(dot := k.dot, minorEnd := k.minorEnd, eol := k.eol, lf := k.lf)
  {
    var d := l.proto + 5;
    var e := Skip(buf, d, Digit);
    var n := Skip(buf, e + 1, Digit);
    k := EndIsMatched(buf, SetMinor(SetMajor(s, Number(buf, d, e)), Number(buf, e + 1, n)),
                      Skip(buf, n, Space), l.(dot := e, minorEnd := n));
  }

  lemma AfterPathIsMatched(buf: seq<byte>, s: Line, l: Layout) returns (k: Layout)
    requires 0 <= l.targetEnd < |buf| && ReadAfterPath(buf, s, l.targetEnd).Accept?
    requires l.proto == NIL && l.dot == NIL && l.minorEnd == NIL
    ensures MatchesVersion(buf, k) && MatchesEnd(buf, k) && buf[l.targetEnd] in {SP, CR, LF}
    ensures ReadAfterPath(buf, s, l.targetEnd).pos == k.lf + 1
    ensures k == l.(proto := k.proto, dot := k.dot, minorEnd := k.minorEnd, eol := k.eol, lf := k.lf)
  {
    if buf[l.targetEnd] == SP {
      k := VersionIsMatched(buf, s, l.targetEnd + 1, l);
    } else {
      k := EndIsMatched(buf, SetMinor(s, 9), l.targetEnd, l);
    }
  }

  lemma PathIsMatched(buf: seq<byte>, s: Line, us: nat, l: Layout) returns (k: Layout)
    requires us < |buf| && buf[us] == SLASH && ReadPath(buf, s, us).Accept?
    requires l.proto == NIL && l.dot == NIL && l.minorEnd == NIL
    ensures MatchesPath(buf, k) && MatchesVersion(buf, k) && MatchesEnd(buf, k)
    ensures ReadPath(buf, s, us).pos == k.lf + 1
    ensures k == l.(path := us, targetEnd := k.targetEnd, proto := k.proto, dot := k.dot,
                    minorEnd := k.minorEnd, eol := k.eol, lf := k.lf)
  {
    var e := Skip(buf, us + 1, Target);
    k := AfterPathIsMatched(buf, PathRead(buf, s, us, e), l.(path := us, targetEnd := e));
  }

  lemma AuthorityIsMatched(buf: seq<byte>, a: Authority, l: Layout) returns (k: Layout)
    requires 0 <= l.target < l.colon && Span(buf, l.target, l.colon, Letter) && Reads(buf, l.colon, COLON_SLASHES)
    requires l.hostEnd == NIL && l.portEnd == NIL
    requires var x := FindHost(buf, a, l.colon + 3); x.PathAt? || x.SpaceAt?
    ensures MatchesAuthority(buf, k) && k == l.(hostEnd := k.hostEnd, portEnd := k.portEnd)
    ensures match FindHost(buf, a, l.colon + 3)
            case PathAt(_, us) => us == k.AuthorityEnd()
            case SpaceAt(_, e) => e == k.AuthorityEnd()
            case _ => true
  {
    var e := Skip(buf, l.colon + 3, HostChar);
    k := l.(hostEnd := e);
    if buf[e] == COLON {
      k := k.(portEnd := Skip(buf, e + 1, Digit));
    }
  }

  // The target up to its path is matched, and the path begins at x.
  ghost predicate PlaceMatches(buf: seq<byte>, k: Layout, x: Place) {
    && 0 <= k.target && (if k.colon == NIL then k.hostEnd == NIL && k.portEnd == NIL else MatchesAuthority(buf, k))
    && match x
       case PathAt(_, us) => us == if k.colon == NIL then k.target else k.AuthorityEnd()
       case SpaceAt(_, e) => k.colon != NIL && e == k.AuthorityEnd()
       case _ => false
  }

  lemma PlaceIsMatched(buf: seq<byte>, a: Authority, l: Layout) returns (k: Layout)
    requires 0 <= l.target < |buf| && l.colon == NIL && l.hostEnd == NIL && l.portEnd == NIL
    requires var x := FindPath(buf, a, l.target); x.PathAt? || x.SpaceAt?
    ensures k == l.(colon := k.colon, hostEnd := k.hostEnd, portEnd := k.portEnd)
    ensures PlaceMatches(buf, k, FindPath(buf, a, l.target))
  {
    k := l;
    if buf[l.target] != SLASH {
      var c := Skip(buf, l.target, Letter);
      k := AuthorityIsMatched(buf, a.(schemaStart := l.target, schemaEnd := c), l.(colon := c));
    }
  }

  lemma RestIsMatched(buf: seq<byte>, s: Line, x: Place, l: Layout) returns (k: Layout)
    requires Fits(buf, x) && PlaceMatches(buf, l, x) && ReadAt(buf, s, x).Accept?
    requires l.path == NIL && l.proto == NIL && l.dot == NIL && l.minorEnd == NIL
    ensures MatchesTarget(buf, k) && MatchesVersion(buf, k) && MatchesEnd(buf, k)
    ensures ReadAt(buf, s, x).pos == k.lf + 1
    ensures k.start == l.start && k.tokenEnd == l.tokenEnd && k.target == l.target
  {
    if x.PathAt? {
      k := PathIsMatched(buf, s.(auth := x.auth), x.us, l);
      SameAuthority(buf, l, k);
    } else {
      k := VersionIsMatched(buf, BorrowSlash(s.(auth := x.auth)).(state := Start), x.e + 1, l.(targetEnd := x.e));
      SameAuthority(buf, l, k);
    }
  }

  // What follows the authority is no part of it.
  lemma SameAuthority(buf: seq<byte>, l: Layout, k: Layout)
    requires k.target == l.target && k.colon == l.colon && k.hostEnd == l.hostEnd && k.portEnd == l.portEnd
    ensures MatchesAuthority(buf, l) <==> MatchesAuthority(buf, k)
  {
  }

  lemma TargetIsMatched(buf: seq<byte>, s: Line, l: Layout) returns (k: Layout)
    requires 0 <= l.target < |buf| && ReadTarget(buf, s, l.target).Accept?
    requires l == UNSET.(start := l.start, tokenEnd := l.tokenEnd, target := l.target)
    ensures MatchesTarget(buf, k) && MatchesVersion(buf, k) && MatchesEnd(buf, k)
    ensures ReadTarget(buf, s, l.target).pos == k.lf + 1
    ensures k.start == l.start && k.tokenEnd == l.tokenEnd && k.target == l.target
  {
    var x := FindPath(buf, s.auth, l.target);
    k := PlaceIsMatched(buf, s.auth, l);
    k := RestIsMatched(buf, s, x, k);
  }

  lemma ReadIsMatched(buf: seq<byte>) returns (k: Layout)
    requires ReadLine(buf).Accept?
    ensures Matches(buf, k) && ReadLine(buf) == Accept(Fields(buf, k), k.lf + 1)
  {
    var a := Skip(buf, 0, Blank);
    var b := Skip(buf, a, Token);
    var t := Skip(buf, b, Space);
    k := TargetIsMatched(buf, AfterToken(buf, a, b), UNSET.(start := a, tokenEnd := b, target := t));
    ReadsTarget(buf, AfterToken(buf, a, b), k);
    ReadsMatch(buf, k);
  }

  // The parser answers OK exactly on the request lines, consuming through the LF,
  // and then every field it leaves is the one the layout gives.
  lemma ExactLanguage(buf: seq<byte>, s: Line, q: nat)
    ensures Run(buf, FRESH, 0) == Done(s, q) <==>
            exists l :: Matches(buf, l) && q == l.lf + 1 && s == Fields(buf, l)
  {
    MachineReadsLine(buf);
    if Run(buf, FRESH, 0) == Done(s, q) {
      var l := ReadIsMatched(buf);
    }
    if l :| Matches(buf, l) && q == l.lf + 1 && s == Fields(buf, l) {
      ReadsMatch(buf, l);
    }
  }
}
