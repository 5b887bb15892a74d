/** What glob patterns mean, from the pieces they are written with. */
module GlobLaws {
  import opened Text
  import opened Glob

  /** A member of a class: one character, or those between two ASCII characters, in either order. */
  datatype Member = One(c: char) | Span(from: char, to: char)

  datatype Piece = Star | Question | Exactly(c: char) | Class(members: seq<Member>, negated: bool)

  // ---------------------------------------------------------------
  // What pieces mean
  // ---------------------------------------------------------------

  predicate Has(m: Member, c: char) {
    match m
    case One(own) => c == own
    case Span(from, to) => from <= c <= to || to <= c <= from
  }

  predicate Suits(piece: Piece, c: char) {
    match piece
    case Star => false
    case Question => true
    case Exactly(own) => c == own
    case Class(members, negated) =>
      if negated then forall i :: 0 <= i < |members| ==> !Has(members[i], c)
      else exists i :: 0 <= i < |members| && Has(members[i], c)
  }

  /** The text is the pieces, one after the other; a star is any text. */
  ghost predicate Fits(pieces: seq<Piece>, t: string)
    decreases |pieces|
  {
    if pieces == [] then t == ""
    else if pieces[0].Star? then exists k :: 0 <= k <= |t| && Fits(pieces[1..], t[k..])
    else t != "" && Suits(pieces[0], t[0]) && Fits(pieces[1..], t[1..])
  }

  // ---------------------------------------------------------------
  // How they are written
  // ---------------------------------------------------------------

  /** Bytes; the ends of a span are ASCII, and its second end is not a closing bracket. */
  predicate Writable(piece: Piece) {
    match piece
    case Class(members, _) => forall i :: 0 <= i < |members| ==> WritableMember(members[i])
    case _ => true
  }

  predicate WritableMember(m: Member) {
    m.Span? ==> m.from as int < 128 && m.to as int < 128 && m.to != ']'
  }

  /** Inside a class, these are written with a backslash. */
  function InClass(c: char): string {
    if c in "]\\-^" then "\\" + [c] else [c]
  }

  function WriteMember(m: Member): string {
    match m
    case One(c) => InClass(c)
    case Span(from, to) => InClass(from) + ("-" + [to])
  }

  function WriteMembers(members: seq<Member>): string {
    if members == [] then "" else WriteMember(members[0]) + WriteMembers(members[1..])
  }

  /** Outside, these are. */
  function WritePiece(piece: Piece): string {
    match piece
    case Star => "*"
    case Question => "?"
    case Exactly(c) => if c in "*?[\\" then "\\" + [c] else [c]
    case Class(members, negated) => "[" + ((if negated then "^" else "") + (WriteMembers(members) + "]"))
  }

  function Write(pieces: seq<Piece>): string {
    if pieces == [] then "" else WritePiece(pieces[0]) + Write(pieces[1..])
  }

  // ---------------------------------------------------------------
  // Reading members
  // ---------------------------------------------------------------

  /** A character as written in a class stands at a position. */
  lemma CharAt(p: string, pos: nat, c: char)
    requires At(p, pos, InClass(c))
    ensures var own := if c in "]\\-^" then pos + 1 else pos;
      pos <= own < |p| && p[own] == c && (own > pos ==> p[pos] == '\\') && own + 1 == pos + |InClass(c)|
    ensures p[pos] != ']' && p[pos] != '-' && p[pos] != '^' && (c !in "]\\-^" ==> p[pos] != '\\')
  {
    var written := InClass(c);
    assert p[pos + 0] == written[0];
    if c in "]\\-^" {
      assert p[pos + 1] == written[1];
    }
  }

  /** What follows a member never makes a span of it. */
  predicate NoDash(p: string, pos: nat) {
    pos < |p| ==> p[pos] != '-'
  }

  lemma ReadOne(p: string, pos: nat, c: char)
    requires At(p, pos, InClass(c)) && NoDash(p, pos + |InClass(c)|)
    ensures pos < |p| && p[pos] != ']'
    ensures MemberAt(p, pos) == (Range(c, c), pos + |InClass(c)|)
  {
    hide At;
    CharAt(p, pos, c);
  }

  lemma ReadSpan(p: string, pos: nat, from: char, to: char)
    requires At(p, pos, InClass(from) + ("-" + [to])) && to != ']'
    ensures pos < |p| && p[pos] != ']'
    ensures MemberAt(p, pos) == (Range(from, to), pos + |InClass(from)| + 2)
  {
    hide At;
    AtSplit(p, pos, InClass(from), "-" + [to]);
    CharAt(p, pos, from);
    var next := pos + |InClass(from)|;
    AtSplit(p, next, "-", [to]);
    AtFirst(p, next, "-");
    AtFirst(p, next + 1, [to]);
  }

  /** A span of ASCII characters has no bytes from 128 up. */
  lemma SpanIsRange(from: char, to: char, c: char)
    requires from as int < 128 && to as int < 128 && c as int < 256
    ensures InRange(c, Range(from, to)) <==> Has(Span(from, to), c)
  {
  }

  lemma OneIsRange(own: char, c: char)
    requires own as int < 256 && c as int < 256
    ensures InRange(c, Range(own, own)) <==> c == own
  {
  }

  /** The characters of the members are bytes. */
  predicate MemberBytes(m: Member) {
    m.One? ==> m.c as int < 256
  }

  ghost predicate SomeHas(members: seq<Member>, c: char) {
    exists i :: 0 <= i < |members| && Has(members[i], c)
  }

  lemma SomeHasFirst(members: seq<Member>, c: char)
    requires members != []
    ensures SomeHas(members, c) <==> Has(members[0], c) || SomeHas(members[1..], c)
  {
    hide Has;
    if SomeHas(members[1..], c) {
      var i :| 0 <= i < |members[1..]| && Has(members[1..][i], c);
      assert Has(members[i + 1], c);
    }
    if SomeHas(members, c) && !Has(members[0], c) {
      var i :| 0 <= i < |members| && Has(members[i], c);
      assert Has(members[1..][i - 1], c);
    }
  }

  /** One member, written first. */
  lemma ReadMemberFirst(p: string, pos: nat, m: Member, c: char)
    requires At(p, pos, WriteMember(m)) && WritableMember(m) && MemberBytes(m) && c as int < 256
    requires NoDash(p, pos + |WriteMember(m)|)
    ensures pos < |p| && p[pos] != ']' && MemberAt(p, pos).1 == pos + |WriteMember(m)|
    ensures InRange(c, MemberAt(p, pos).0) <==> Has(m, c)
  {
    hide At, InRange, MemberAt, InClass;
    match m
    case One(own) =>
      ReadOne(p, pos, own);
      OneIsRange(own, c);
    case Span(from, to) =>
      ReadSpan(p, pos, from, to);
      SpanIsRange(from, to, c);
  }

  /** The members up to the closing bracket. */
  lemma {:induction false} ReadMembers(p: string, pos: nat, members: seq<Member>, c: char)
    requires At(p, pos, WriteMembers(members) + "]") && c as int < 256
    requires forall i :: 0 <= i < |members| ==> WritableMember(members[i]) && MemberBytes(members[i])
    ensures pos <= |p| && ClassMembers(p, pos).end == pos + |WriteMembers(members)| + 1
    ensures AnyContains(ClassMembers(p, pos).ranges, c) <==> SomeHas(members, c)
    decreases |members|
  {
    hide At, WriteMember, MemberAt, InRange, Has, WritableMember, MemberBytes;
    AtFits(p, pos, WriteMembers(members) + "]");
    if members == [] {
      assert WriteMembers(members) + "]" == "]";
      AtFirst(p, pos, "]");
      NoMembers(c);
    } else {
      var first, rest := WriteMember(members[0]), WriteMembers(members[1..]) + "]";
      assert WriteMembers(members) + "]" == first + rest;
      AtSplit(p, pos, first, rest);
      RestHasNoDash(p, pos + |first|, members[1..]);
      ReadMemberFirst(p, pos, members[0], c);
      MemberTurn(p, pos, c);
      ReadMembers(p, pos + |first|, members[1..], c);
      SomeHasFirst(members, c);
    }
  }

  lemma RestHasNoDash(p: string, pos: nat, members: seq<Member>)
    requires At(p, pos, WriteMembers(members) + "]")
    ensures NoDash(p, pos)
  {
    hide At;
    var rest := WriteMembers(members) + "]";
    AtFirst(p, pos, rest);
    if members != [] {
      assert rest[0] == WriteMember(members[0])[0];
    }
  }

  // ---------------------------------------------------------------
  // Reading pieces
  // ---------------------------------------------------------------

  predicate PieceBytes(piece: Piece) {
    match piece
    case Class(members, _) => forall i :: 0 <= i < |members| ==> MemberBytes(members[i])
    case _ => true
  }

  /** A piece that is not a star, where it stands in a pattern. */
  lemma ReadPiece(p: string, pos: nat, piece: Piece, c: char)
    requires !piece.Star? && At(p, pos, WritePiece(piece)) && Writable(piece) && PieceBytes(piece) && c as int < 256
    ensures pos < |p| && p[pos] != '*'
    ensures TokenAt(p, pos).1 == pos + |WritePiece(piece)|
    ensures Accepts(TokenAt(p, pos).0, c) <==> Suits(piece, c)
  {
    hide At, ClassMembers, AnyContains, Has, WriteMembers;
    match piece
    case Question => AtFirst(p, pos, "?");
    case Exactly(own) => ReadExactly(p, pos, own);
    case Class(members, negated) => ReadClass(p, pos, members, negated, c);
  }

  lemma ReadExactly(p: string, pos: nat, own: char)
    requires At(p, pos, WritePiece(Exactly(own)))
    ensures pos < |p| && p[pos] != '*' && TokenAt(p, pos) == (Literal(own), pos + |WritePiece(Exactly(own))|)
  {
    var written := WritePiece(Exactly(own));
    assert p[pos + 0] == written[0];
    if own in "*?[\\" {
      assert p[pos + 1] == written[1];
    }
  }

  lemma ReadClass(p: string, pos: nat, members: seq<Member>, negated: bool, c: char)
    requires At(p, pos, WritePiece(Class(members, negated))) && c as int < 256
    requires forall i :: 0 <= i < |members| ==> WritableMember(members[i]) && MemberBytes(members[i])
    ensures pos < |p| && p[pos] == '['
    ensures TokenAt(p, pos).1 == pos + |WritePiece(Class(members, negated))|
    ensures Accepts(TokenAt(p, pos).0, c) <==> (SomeHas(members, c) != negated)
  {
    hide At, ClassMembers, AnyContains, Has, WriteMembers, SomeHas;
    var body := WriteMembers(members) + "]";
    var sign := if negated then "^" else "";
    AtSplit(p, pos, "[", sign + body);
    AtFirst(p, pos, "[");
    AtSplit(p, pos + 1, sign, body);
    var inside := pos + 1 + |sign|;
    if negated {
      AtFirst(p, pos + 1, sign);
    } else {
      NoSign(p, pos + 1, members);
    }
    ReadMembers(p, inside, members, c);
  }

  /** The first member is not taken for a negation. */
  lemma NoSign(p: string, pos: nat, members: seq<Member>)
    requires At(p, pos, WriteMembers(members) + "]")
    ensures pos < |p| && p[pos] != '^'
  {
    hide At;
    var rest := WriteMembers(members) + "]";
    AtFirst(p, pos, rest);
    if members != [] {
      assert rest[0] == WriteMember(members[0])[0];
    }
  }

  predicate Bytes(t: string) {
    forall i :: 0 <= i < |t| ==> t[i] as int < 256
  }

  predicate Good(pieces: seq<Piece>) {
    forall i :: 0 <= i < |pieces| ==> Writable(pieces[i]) && PieceBytes(pieces[i])
  }

  /** A written pattern matches what its pieces fit, from any place on. */
  lemma {:induction false} WrittenFrom(p: string, pos: nat, pieces: seq<Piece>, t: string, at: nat)
    requires Good(pieces) && Bytes(t) && at <= |t|
    requires At(p, pos, Write(pieces)) && pos + |Write(pieces)| == |p|
    ensures Matches(p, pos, t, at) <==> Fits(pieces, t[at..])
    decreases |pieces|
  {
    hide At, WritePiece, TokenAt, Accepts, Suits, Writable, PieceBytes;
    if pieces == [] {
      assert Write(pieces) == "";
    } else {
      var first, rest := WritePiece(pieces[0]), Write(pieces[1..]);
      AtSplit(p, pos, first, rest);
      if pieces[0].Star? {
        StarWritten(p, pos, pieces[0]);
        StarMeaning(p, pos, t, at);
        forall k | at <= k <= |t| ensures Matches(p, pos + 1, t, k) <==> Fits(pieces[1..], t[k..]) {
          WrittenFrom(p, pos + 1, pieces[1..], t, k);
        }
        StarFits(p, pos + 1, pieces[1..], t, at);
      } else if at < |t| {
        ReadPiece(p, pos, pieces[0], t[at]);
        WrittenFrom(p, pos + |first|, pieces[1..], t, at + 1);
        assert t[at..][1..] == t[at + 1..];
      } else {
        ReadPiece(p, pos, pieces[0], ' ');
      }
    }
  }

  lemma StarWritten(p: string, pos: nat, piece: Piece)
    requires piece.Star? && At(p, pos, WritePiece(piece))
    ensures pos < |p| && p[pos] == '*' && |WritePiece(piece)| == 1
  {
    AtFirst(p, pos, "*");
  }

  lemma StarFits(p: string, pos: nat, rest: seq<Piece>, t: string, at: nat)
    requires pos <= |p| && at <= |t|
    requires forall k :: at <= k <= |t| ==> (Matches(p, pos, t, k) <==> Fits(rest, t[k..]))
    ensures Later(p, pos, t, at) <==> exists k :: 0 <= k <= |t[at..]| && Fits(rest, t[at..][k..])
  {
    hide Matches, Fits;
    if Later(p, pos, t, at) {
      var k :| at <= k <= |t| && Matches(p, pos, t, k);
      assert t[at..][k - at..] == t[k..];
    }
    if k :| 0 <= k <= |t[at..]| && Fits(rest, t[at..][k..]) {
      assert t[at..][k..] == t[at + k..];
      assert Matches(p, pos, t, at + k);
    }
  }

  /** Bytes from 128 up keep their order among themselves, and come before all others. */
  lemma HighBytes(from: char, to: char, c: char)
    requires 128 <= from as int < 256 && 128 <= to as int < 256 && c as int < 256
    ensures InRange(c, Range(from, to)) <==> from <= c <= to || to <= c <= from
    ensures forall low: char :: low as int < 128 ==> (InRange(c, Range(from, low)) <==> c >= from || c <= low)
  {
  }

  /** A pattern matches exactly the texts that its pieces fit. */
  lemma WrittenPatternMeans(pieces: seq<Piece>, t: string)
    requires Good(pieces) && Bytes(t)
    ensures Matches(Write(pieces), 0, t, 0) <==> Fits(pieces, t)
  {
    hide Matches, Fits, Write;
    WrittenFrom(Write(pieces), 0, pieces, t, 0);
    assert t[0..] == t;
  }

  /** Text without special characters is a pattern for itself only. */
  lemma {:induction false} LiteralFitsItself(text: string, t: string)
    ensures Fits(Literally(text), t) <==> t == text
  {
    if text != "" {
      assert Literally(text)[1..] == Literally(text[1..]);
      if t != "" {
        LiteralFitsItself(text[1..], t[1..]);
        assert t == [t[0]] + t[1..] && text == [text[0]] + text[1..];
      }
    }
  }

  function Literally(text: string): (r: seq<Piece>)
    ensures |r| == |text| && forall i :: 0 <= i < |text| ==> r[i] == Exactly(text[i])
  {
    seq(|text|, i requires 0 <= i < |text| => Exactly(text[i]))
  }

  /** A class that ends with the pattern, unclosed, is closed by it. */
  lemma UnclosedClass(c: char, t: string)
    requires c !in "]\\-^" && c as int < 256 && Bytes(t)
    ensures Matches("[" + [c], 0, t, 0) <==> t == [c]
  {
    var p := "[" + [c];
    assert p[1] == c;
    var m := ClassMembers(p, 1);
    assert ClassMembers(p, 2) == Members([], 2);
    assert m == Members([Range(c, c)], 2);
    if t != "" {
      OneIsRange(c, t[0]);
      assert AnyContains([Range(c, c)], t[0]) <==> InRange(t[0], Range(c, c));
    }
  }
}
