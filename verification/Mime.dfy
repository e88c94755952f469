/** The bytes of a `multipart/form-data` body, and a parser for them after section 5.1.1 of RFC 2046. */
module Mime {
  import opened Bits
  import opened Wire

  const CR: Byte := 13
  const LF: Byte := 10
  const CRLF: seq<Byte> := [CR, LF]
  const DASHES: seq<Byte> := [45, 45]
  const COLON_SPACE: seq<Byte> := [58, 32]

  datatype Header = Header(name: seq<Byte>, value: seq<Byte>)

  datatype Part = Part(headers: seq<Header>, body: seq<Byte>)

  // ----- what the encoder produces

  datatype BoundaryType = Initial | Encapsulated | Final

  function BoundaryData(kind: BoundaryType, boundary: seq<Byte>): seq<Byte> {
    match kind
    case Initial => DASHES + boundary + CRLF
    case Encapsulated => CRLF + DASHES + boundary + CRLF
    case Final => CRLF + DASHES + boundary + DASHES + CRLF
  }

  function HeaderText(h: Header): seq<Byte> { h.name + COLON_SPACE + h.value }

  function HeaderLine(h: Header): seq<Byte> { HeaderText(h) + CRLF }

  function HeaderLines(hs: seq<Header>): seq<Byte> {
    if hs == [] then [] else HeaderLine(hs[0]) + HeaderLines(hs[1..])
  }

  function HeaderData(hs: seq<Header>): seq<Byte> { HeaderLines(hs) + CRLF }

  function Content(p: Part): seq<Byte> { HeaderData(p.headers) + p.body }

  /** A body part with its boundary flags. */
  datatype Flagged = Flagged(part: Part, initial: bool, final: bool)

  function PartData(boundary: seq<Byte>, p: Flagged): seq<Byte> {
    BoundaryData(if p.initial then Initial else Encapsulated, boundary) + Content(p.part) +
    if p.final then BoundaryData(Final, boundary) else []
  }

  function AllData(boundary: seq<Byte>, ps: seq<Flagged>): seq<Byte> {
    if ps == [] then [] else PartData(boundary, ps[0]) + AllData(boundary, ps[1..])
  }

  /** The flags of a first encoding: initial on the first part, final on the last. */
  function FirstFlags(parts: seq<Part>, k: nat): (fs: seq<Flagged>)
    requires k <= |parts|
    ensures |fs| == |parts| - k
    decreases |parts| - k
  {
    if k == |parts| then []
    else [Flagged(parts[k], k == 0, k == |parts| - 1)] + FirstFlags(parts, k + 1)
  }

  /** The body of a first encoding. */
  function Body(boundary: seq<Byte>, parts: seq<Part>): seq<Byte> { AllData(boundary, FirstFlags(parts, 0)) }

  // ----- the same text line by line

  /** "Name: value" and the line end. */
  function TextLines(hs: seq<Header>): seq<Byte> {
    if hs == [] then [] else hs[0].name + [58, 32] + hs[0].value + [13, 10] + TextLines(hs[1..])
  }

  /** "--" and the boundary on a line, header lines, an empty line and the body. */
  function PartText(boundary: seq<Byte>, p: Part): seq<Byte> {
    [45, 45] + boundary + [13, 10] + (TextLines(p.headers) + [13, 10] + p.body)
  }

  /** From part k on, each part with a line end; behind the last "--", the boundary and "--" on a line. */
  function FormText(boundary: seq<Byte>, parts: seq<Part>, k: nat): seq<Byte>
    requires k <= |parts|
    decreases |parts| - k
  {
    if k == |parts| then [45, 45] + boundary + [45, 45] + [13, 10]
    else PartText(boundary, parts[k]) + ([13, 10] + FormText(boundary, parts, k + 1))
  }

  lemma {:induction false} LinesAreText(hs: seq<Header>)
    ensures HeaderLines(hs) == TextLines(hs)
  {
    if hs != [] {
      LinesAreText(hs[1..]);
    }
  }

  lemma PartIsText(boundary: seq<Byte>, p: Flagged)
    ensures PartData(boundary, p) ==
            (if p.initial then [] else [13, 10]) + PartText(boundary, p.part) +
            if p.final then [13, 10] + ([45, 45] + boundary + [45, 45] + [13, 10]) else []
  {
    LinesAreText(p.part.headers);
    hide HeaderLines, TextLines;
    var c := Content(p.part);
    assert c == TextLines(p.part.headers) + [13, 10] + p.part.body;
    BoundaryText(boundary);
    var line := [45, 45] + boundary + [13, 10];
    NilLeft(line + c);
    Assoc([13, 10], line, c);
  }

  lemma BoundaryText(boundary: seq<Byte>)
    ensures BoundaryData(Initial, boundary) == [45, 45] + boundary + [13, 10]
    ensures BoundaryData(Encapsulated, boundary) == [13, 10] + ([45, 45] + boundary + [13, 10])
    ensures BoundaryData(Final, boundary) == [13, 10] + ([45, 45] + boundary + [45, 45] + [13, 10])
  {
  }

  lemma {:induction false} DataIsText(boundary: seq<Byte>, parts: seq<Part>, k: nat)
    requires k < |parts|
    ensures AllData(boundary, FirstFlags(parts, k)) == (if k == 0 then [] else [13, 10]) + FormText(boundary, parts, k)
    decreases |parts| - k
  {
    hide PartText, PartData;
    var fs := FirstFlags(parts, k);
    assert fs[0] == Flagged(parts[k], k == 0, k == |parts| - 1) && fs[1..] == FirstFlags(parts, k + 1);
    PartIsText(boundary, fs[0]);
    var pre, text := if k == 0 then [] else [13, 10], PartText(boundary, parts[k]);
    var more := FormText(boundary, parts, k + 1);
    Assoc(pre, text, [13, 10] + more);
    if k < |parts| - 1 {
      DataIsText(boundary, parts, k + 1);
      NilRight(pre + text);
    } else {
      assert fs[1..] == [];
      NilRight(pre + text + ([13, 10] + more));
    }
  }

  lemma NilRight(p: seq<Byte>)
    ensures p + [] == p
  {
  }

  /** The body of a first encoding, read as lines. */
  lemma BodyIsText(boundary: seq<Byte>, parts: seq<Part>)
    requires parts != []
    ensures Body(boundary, parts) == FormText(boundary, parts, 0)
  {
    DataIsText(boundary, parts, 0);
  }

  // ----- searching

  predicate StartsWith(s: seq<Byte>, d: seq<Byte>) { |d| <= |s| && s[..|d|] == d }

  datatype Position = Here(index: nat) | Nowhere

  /** The first occurrence of d. */
  function Find(s: seq<Byte>, d: seq<Byte>): (p: Position)
    ensures p.Here? ==> p.index + |d| <= |s| && s[p.index..p.index + |d|] == d
  {
    if StartsWith(s, d) then Here(0)
    else if s == [] then Nowhere
    else
      match Find(s[1..], d)
      case Here(i) => Here(i + 1)
      case Nowhere => Nowhere
  }

  /** A delimiter whose first byte occurs nowhere else in it cannot straddle the end of what stands
    * before it: the first occurrence is either inside c or exactly behind it. */
  lemma {:induction false} NoStraddling(c: seq<Byte>, d: seq<Byte>, t: seq<Byte>)
    requires d != [] && d[0] !in d[1..]
    ensures Find(c, d).Nowhere? ==> Find(c + d + t, d) == Here(|c|)
    ensures Find(c, d).Here? ==> Find(c + d + t, d) == Find(c, d)
  {
    var s := c + d + t;
    if c == [] {
      assert s[..|d|] == d;
    } else {
      assert s[1..] == c[1..] + d + t;
      NoStraddling(c[1..], d, t);
      if |d| <= |c| {
        assert s[..|d|] == c[..|d|];
      } else {
        assert s[..|d|][|c|] == d[0] && d[1..][|c| - 1] == d[|c|];
      }
    }
  }

  lemma {:induction false} FindByte(c: seq<Byte>, d: seq<Byte>)
    requires d != [] && d[0] !in c
    ensures Find(c, d).Nowhere?
  {
    if c != [] {
      assert c[0] in c && forall b :: b in c[1..] ==> b in c;
      FindByte(c[1..], d);
    }
  }

  // ----- the parser of RFC 2046

  datatype Parsed<T> = Parsed(items: seq<T>) | Malformed

  function SkipPadding(s: seq<Byte>): (r: seq<Byte>)
    ensures |r| <= |s|
  {
    if s != [] && (s[0] == 32 || s[0] == 9) then SkipPadding(s[1..]) else s
  }

  /** The body parts behind a boundary, d being the delimiter. */
  function ParseAfter(d: seq<Byte>, s: seq<Byte>): Parsed<seq<Byte>>
    decreases |s|
  {
    var t := SkipPadding(s);
    if StartsWith(s, DASHES) then Parsed([])
    else if !StartsWith(t, CRLF) then Malformed
    else
      var u := t[2..];
      match Find(u, d)
      case Nowhere => Malformed
      case Here(i) =>
        match ParseAfter(d, u[i + |d|..])
        case Malformed => Malformed
        case Parsed(rest) => Parsed([u[..i]] + rest)
  }

  /** The contents of the body parts, between the first dash-boundary and the close-delimiter. */
  function ParseBody(boundary: seq<Byte>, s: seq<Byte>): Parsed<seq<Byte>> {
    var dashBoundary := DASHES + boundary;
    var d := CRLF + dashBoundary;
    if StartsWith(s, dashBoundary) then ParseAfter(d, s[|dashBoundary|..])
    else
      match Find(s, d)
      case Nowhere => Malformed
      case Here(i) => ParseAfter(d, s[i + |d|..])
  }

  /** Header lines up to the empty line, then the body. */
  function ParseContent(c: seq<Byte>): Parsed<Part>
    decreases |c|
  {
    if StartsWith(c, CRLF) then Parsed([Part([], c[2..])])
    else
      match Find(c, CRLF)
      case Nowhere => Malformed
      case Here(i) =>
        match Find(c[..i], COLON_SPACE)
        case Nowhere => Malformed
        case Here(j) =>
          match ParseContent(c[i + 2..])
          case Malformed => Malformed
          case Parsed(ps) =>
            if |ps| != 1 then Malformed
            else Parsed([Part([Header(c[..j], c[j + 2..i])] + ps[0].headers, ps[0].body)])
  }

  function ParseContents(cs: seq<seq<Byte>>): Parsed<Part> {
    if cs == [] then Parsed([])
    else
      match (ParseContent(cs[0]), ParseContents(cs[1..]))
      case (Parsed(p), Parsed(ps)) => Parsed(p + ps)
      case _ => Malformed
  }

  function ParseParts(boundary: seq<Byte>, s: seq<Byte>): Parsed<Part> {
    match ParseBody(boundary, s)
    case Malformed => Malformed
    case Parsed(cs) => ParseContents(cs)
  }

  // ----- boundaries

  function Hex(v: nat, n: nat): (p: seq<Byte>)
    ensures |p| == n && forall b :: b in p ==> 48 <= b <= 57 || 97 <= b <= 102
  {
    if n == 0 then []
    else Hex(v / 16, n - 1) + [if v % 16 < 10 then 48 + v % 16 else 87 + v % 16]
  }

  // "alamofire.boundary."
  const PREFIX: seq<Byte> := [97, 108, 97, 109, 111, 102, 105, 114, 101, 46, 98, 111, 117, 110, 100, 97, 114, 121, 46]

  /** The boundary made of two random words. */
  function RandomBoundary(a: nat, b: nat): seq<Byte> { PREFIX + Hex(a, 8) + Hex(b, 8) }

  /** A boundary that RFC 2046 allows: 1 to 70 characters, here only letters, digits and dots. */
  predicate Legal(boundary: seq<Byte>) {
    && 0 < |boundary| <= 70
    && forall b :: b in boundary ==> 97 <= b <= 122 || 48 <= b <= 57 || b == 46
  }

  lemma RandomBoundaryIsLegal(a: nat, b: nat)
    ensures Legal(RandomBoundary(a, b))
  {
  }

  lemma {:induction false} HexInjective(v: nat, w: nat, n: nat)
    requires v < Pow2(4 * n) && w < Pow2(4 * n) && Hex(v, n) == Hex(w, n)
    ensures v == w
  {
    if n > 0 {
      Pow2Add(4, 4 * (n - 1));
      assert Pow2(4) == 16 && 4 * n == 4 + 4 * (n - 1);
      hide Pow2;
      var p, q := Hex(v, n), Hex(w, n);
      assert p[..n - 1] == Hex(v / 16, n - 1) && q[..n - 1] == Hex(w / 16, n - 1);
      assert p[n - 1] == q[n - 1];
      HexInjective(v / 16, w / 16, n - 1);
    }
  }

  /** Different random words make different boundaries. */
  lemma BoundariesDiffer(a: nat, b: nat, c: nat, d: nat)
    requires a < 0x1_0000_0000 && b < 0x1_0000_0000 && c < 0x1_0000_0000 && d < 0x1_0000_0000
    requires RandomBoundary(a, b) == RandomBoundary(c, d)
    ensures a == c && b == d
  {
    var p, q := RandomBoundary(a, b), RandomBoundary(c, d);
    assert p[|PREFIX|..|PREFIX| + 8] == Hex(a, 8) && q[|PREFIX|..|PREFIX| + 8] == Hex(c, 8);
    assert p[|PREFIX| + 8..] == Hex(b, 8) && q[|PREFIX| + 8..] == Hex(d, 8);
    Pow2Values();
    hide Hex;
    HexInjective(a, c, 8);
    HexInjective(b, d, 8);
  }

  function Delimiter(boundary: seq<Byte>): seq<Byte> { CRLF + DASHES + boundary }

  lemma DelimiterStart(boundary: seq<Byte>)
    requires Legal(boundary)
    ensures Delimiter(boundary) != [] && Delimiter(boundary)[0] !in Delimiter(boundary)[1..]
  {
    assert Delimiter(boundary)[1..] == [LF] + DASHES + boundary;
  }

  // ----- the round trip

  function Contents(parts: seq<Part>, k: nat): seq<seq<Byte>>
    requires k <= |parts|
    decreases |parts| - k
  {
    if k == |parts| then [] else [Content(parts[k])] + Contents(parts, k + 1)
  }

  /** The rest of a boundary line, and what stands behind it. */
  function Line(t: seq<Byte>): seq<Byte> { CRLF + t }

  const CLOSE: seq<Byte> := DASHES + CRLF

  /** What stands behind the boundary of part k. */
  function After(boundary: seq<Byte>, parts: seq<Part>, k: nat): seq<Byte>
    requires k < |parts|
    decreases |parts| - k
  {
    Line(Content(parts[k]) + Delimiter(boundary) + if k == |parts| - 1 then CLOSE else After(boundary, parts, k + 1))
  }

  lemma FourParts(p: seq<Byte>, q: seq<Byte>, r: seq<Byte>, t: seq<Byte>)
    ensures p + q + r + t == p + (q + r + t)
  {
  }

  lemma BoundaryLines(boundary: seq<Byte>, t: seq<Byte>)
    ensures BoundaryData(Initial, boundary) + t == DASHES + boundary + Line(t)
    ensures BoundaryData(Encapsulated, boundary) + t == Delimiter(boundary) + Line(t)
    ensures BoundaryData(Final, boundary) == Delimiter(boundary) + CLOSE
  {
    Assoc(DASHES + boundary, CRLF, t);
    Assoc(CRLF + DASHES + boundary, CRLF, t);
    Assoc(CRLF + DASHES + boundary, DASHES, CRLF);
  }

  lemma {:induction false} DataIsAfter(boundary: seq<Byte>, parts: seq<Part>, k: nat)
    requires k < |parts|
    ensures AllData(boundary, FirstFlags(parts, k)) ==
            (if k == 0 then DASHES + boundary else Delimiter(boundary)) + After(boundary, parts, k)
    decreases |parts| - k
  {
    hide Content, Delimiter, Line, BoundaryData;
    var fs, rest := FirstFlags(parts, k), FirstFlags(parts, k + 1);
    assert fs[0] == Flagged(parts[k], k == 0, k == |parts| - 1) && fs[1..] == rest;
    var start := BoundaryData(if k == 0 then Initial else Encapsulated, boundary);
    var c, d := Content(parts[k]), Delimiter(boundary);
    if k < |parts| - 1 {
      DataIsAfter(boundary, parts, k + 1);
      var t := After(boundary, parts, k + 1);
      BoundaryLines(boundary, c + d + t);
      JoinParts(start, c, [], d, t);
    } else {
      BoundaryLines(boundary, c + d + CLOSE);
      JoinParts(start, c, d + CLOSE, [], []);
      Assoc(c, d, CLOSE);
    }
  }

  lemma JoinParts(start: seq<Byte>, c: seq<Byte>, final: seq<Byte>, d: seq<Byte>, t: seq<Byte>)
    ensures final == [] ==> start + c + final + (d + t) == start + (c + d + t)
    ensures d == t == [] ==> start + c + final + d == start + (c + final)
  {
  }

  predicate Clear(boundary: seq<Byte>, p: Part) { Find(Content(p), Delimiter(boundary)).Nowhere? }

  function Cons<T>(x: T, rest: Parsed<T>): Parsed<T> {
    if rest.Parsed? then Parsed([x] + rest.items) else Malformed
  }

  /** One body part: the parser takes c as a whole, or, when c contains the delimiter, less than c. */
  lemma ParseStep(d: seq<Byte>, c: seq<Byte>, t: seq<Byte>)
    requires d != [] && d[0] !in d[1..]
    ensures var r := ParseAfter(d, Line(c + d + t));
            if Find(c, d).Nowhere? then r == Cons(c, ParseAfter(d, t))
            else r.Malformed? || (r.items != [] && |r.items[0]| < |c|)
  {
    var u := c + d + t;
    var s := CRLF + u;
    NoStraddling(c, d, t);
    assert SkipPadding(s) == s && s[..2] == CRLF && s[2..] == u;
    assert s[..2] != DASHES;
    hide Find, SkipPadding;
    if Find(c, d).Nowhere? {
      SplitAt(c + d, t);
      assert u[..|c|] == c;
    }
  }

  lemma CloseStep(d: seq<Byte>)
    ensures ParseAfter(d, CLOSE) == Parsed([])
  {
  }

  lemma {:induction false} AfterRoundTrip(boundary: seq<Byte>, parts: seq<Part>, k: nat)
    requires k < |parts| && Legal(boundary)
    ensures ParseAfter(Delimiter(boundary), After(boundary, parts, k)) == Parsed(Contents(parts, k)) <==>
            forall j :: k <= j < |parts| ==> Clear(boundary, parts[j])
    decreases |parts| - k
  {
    hide Content, Find, Line, Delimiter, ParseAfter;
    var d, c := Delimiter(boundary), Content(parts[k]);
    var t := if k == |parts| - 1 then CLOSE else After(boundary, parts, k + 1);
    DelimiterStart(boundary);
    ParseStep(d, c, t);
    if k < |parts| - 1 {
      AfterRoundTrip(boundary, parts, k + 1);
    } else {
      CloseStep(d);
    }
    assert Clear(boundary, parts[k]) <==> Find(c, d).Nowhere?;
    assert Contents(parts, k) == [c] + Contents(parts, k + 1);
    ConsIs(c, ParseAfter(d, t), Contents(parts, k), Contents(parts, k + 1));
  }

  lemma ConsIs<T>(x: T, r: Parsed<T>, whole: seq<T>, rest: seq<T>)
    requires whole == [x] + rest
    ensures Cons(x, r) == Parsed(whole) <==> r == Parsed(rest)
  {
    if r.Parsed? && [x] + r.items == whole {
      assert r.items == ([x] + r.items)[1..] == rest;
    }
  }

  /** The parser recovers the contents of the parts exactly when none of them contains the delimiter. */
  lemma BodyRoundTrip(boundary: seq<Byte>, parts: seq<Part>)
    requires parts != [] && Legal(boundary)
    ensures ParseBody(boundary, Body(boundary, parts)) == Parsed(Contents(parts, 0)) <==>
            forall j :: 0 <= j < |parts| ==> Clear(boundary, parts[j])
  {
    hide After, ParseAfter, Clear, AllData, Find;
    var b := DASHES + boundary;
    DataIsAfter(boundary, parts, 0);
    AfterRoundTrip(boundary, parts, 0);
    Assoc(CRLF, DASHES, boundary);
    SplitAt(b, After(boundary, parts, 0));
  }

  /** Header names without colons and line ends, values without line ends. */
  predicate Clean(h: Header) { CR !in h.name && 58 !in h.name && CR !in h.value }

  predicate AllClean(p: Part) { forall i :: 0 <= i < |p.headers| ==> Clean(p.headers[i]) }

  lemma {:induction false} ContentRoundTrip(p: Part)
    requires AllClean(p)
    ensures ParseContent(Content(p)) == Parsed([p])
    decreases |p.headers|
  {
    hide Content, ParseContent, Clean;
    if p.headers == [] {
      NoHeaders(p);
    } else {
      var h, q := p.headers[0], Part(p.headers[1..], p.body);
      ContentRoundTrip(q);
      ContentLine(p);
      LineStep(h, Content(q));
      assert [h] + q.headers == p.headers;
    }
  }

  lemma NoHeaders(p: Part)
    requires p.headers == []
    ensures ParseContent(Content(p)) == Parsed([p])
  {
    NilLeft(CRLF);
    SplitAt(CRLF, p.body);
  }

  lemma ContentLine(p: Part)
    requires p.headers != []
    ensures Content(p) == HeaderText(p.headers[0]) + CRLF + Content(Part(p.headers[1..], p.body))
  {
    var l, ls := HeaderLine(p.headers[0]), HeaderLines(p.headers[1..]);
    FourParts(l, ls, CRLF, p.body);
  }

  /** One header line in front of any content. */
  lemma LineStep(h: Header, t: seq<Byte>)
    requires Clean(h)
    ensures var c := HeaderText(h) + CRLF + t;
            ParseContent(c) ==
            match ParseContent(t)
            case Malformed => Malformed
            case Parsed(ps) => if |ps| != 1 then Malformed else Parsed([Part([h] + ps[0].headers, ps[0].body)])
  {
    var line := HeaderText(h);
    var c := line + CRLF + t;
    LineParts(h, t);
    FindByte(line, CRLF);
    NoStraddling(line, CRLF, t);
    FindByte(h.name, COLON_SPACE);
    NoStraddling(h.name, COLON_SPACE, h.value);
    hide Find;
  }

  lemma LineParts(h: Header, t: seq<Byte>)
    requires Clean(h)
    ensures var line := HeaderText(h);
            var c, n := line + CRLF + t, |h.name|;
            && CR !in line && c[0] == line[0] && c[..|line|] == line && c[|line| + 2..] == t
            && c[..n] == h.name && c[n + 2..|line|] == h.value
  {
    var line := HeaderText(h);
    SplitAt(line + CRLF, t);
    SplitAt(line, CRLF + t);
    Assoc(line, CRLF, t);
    SplitAt(h.name + COLON_SPACE, h.value);
    SplitAt(h.name, COLON_SPACE + h.value);
    Assoc(h.name, COLON_SPACE, h.value);
  }

  lemma {:induction false} ContentsRoundTrip(parts: seq<Part>, k: nat)
    requires k <= |parts| && forall j :: 0 <= j < |parts| ==> AllClean(parts[j])
    ensures ParseContents(Contents(parts, k)) == Parsed(parts[k..])
    decreases |parts| - k
  {
    hide Content, ParseContent, AllClean;
    if k < |parts| {
      ContentRoundTrip(parts[k]);
      ContentsRoundTrip(parts, k + 1);
      assert Contents(parts, k)[1..] == Contents(parts, k + 1);
      assert [parts[k]] + parts[k + 1..] == parts[k..];
    }
  }

  /** Headers and bodies come back, all parts in order. */
  lemma PartsRoundTrip(boundary: seq<Byte>, parts: seq<Part>)
    requires parts != [] && Legal(boundary) && forall j :: 0 <= j < |parts| ==> Clear(boundary, parts[j])
    requires forall j :: 0 <= j < |parts| ==> AllClean(parts[j])
    ensures ParseParts(boundary, Body(boundary, parts)) == Parsed(parts)
  {
    BodyRoundTrip(boundary, parts);
    ContentsRoundTrip(parts, 0);
  }
}
