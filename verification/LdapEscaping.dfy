/**
  * Escaping and unescaping of LDAP filters and names in plugins/auth-provider-ldap/src/index.ts,
  * as one substitution of each character, and back.
  */
module LdapEscaping {
  import opened Sequences
  import opened Text

  // ---- The escaping functions

  /** `s.replace(/c/g, r)` */
  function ReplaceAll(s: string, c: char, r: string): string {
    if s == "" then ""
    else (if s[0] == c then r else [s[0]]) + ReplaceAll(s[1..], c, r)
  }

  const NUL: char := 0 as char

  /** `escapeLdapFilterValue` */
  function EscapeFilterValue(value: string): string {
    var s1 := ReplaceAll(value, '\\', "\\5c");
    var s2 := ReplaceAll(s1, '*', "\\2a");
    var s3 := ReplaceAll(s2, '(', "\\28");
    var s4 := ReplaceAll(s3, ')', "\\29");
    ReplaceAll(s4, NUL, "\\00")
  }

  /** The eight replacements of `escapeDnValue`. */
  function EscapeDnChars(value: string): string {
    var s1 := ReplaceAll(value, '\\', "\\\\");
    var s2 := ReplaceAll(s1, '"', "\\\"");
    var s3 := ReplaceAll(s2, '+', "\\+");
    var s4 := ReplaceAll(s3, ',', "\\,");
    var s5 := ReplaceAll(s4, ';', "\\;");
    var s6 := ReplaceAll(s5, '<', "\\<");
    var s7 := ReplaceAll(s6, '>', "\\>");
    ReplaceAll(s7, NUL, "\\00")
  }

  function EscapeHash(s: string): string {
    if s != "" && s[0] == '#' then "\\" + s else s
  }

  function EscapeLeadingSpace(s: string): string {
    if s != "" && s[0] == ' ' then "\\ " + s[1..] else s
  }

  function EscapeTrailingSpace(s: string): string {
    if s != "" && s[|s| - 1] == ' ' then s[..|s| - 1] + "\\ " else s
  }

  /** `escapeDnValue` */
  function EscapeDnValue(value: string): string {
    EscapeTrailingSpace(EscapeLeadingSpace(EscapeHash(EscapeDnChars(value))))
  }

  // ---- Replacements act on each character alone

  lemma {:induction false} ReplaceConcat(a: string, b: string, c: char, r: string)
    ensures ReplaceAll(a + b, c, r) == ReplaceAll(a, c, r) + ReplaceAll(b, c, r)
  {
    if a == "" {
      assert a + b == b;
    } else {
      ReplaceConcat(a[1..], b, c, r);
      assert (a + b)[1..] == a[1..] + b && (a + b)[0] == a[0];
      Regroup(if a[0] == c then r else [a[0]], ReplaceAll(a[1..], c, r), ReplaceAll(b, c, r));
    }
  }

  /** A string without c is left alone. */
  lemma {:induction false} ReplaceNone(s: string, c: char, r: string)
    requires c !in s
    ensures ReplaceAll(s, c, r) == s
  {
    if s == "" {
    } else {
      ReplaceNone(s[1..], c, r);
    }
  }

  lemma ReplaceOne(x: char, c: char, r: string)
    ensures ReplaceAll([x], c, r) == if x == c then r else [x]
  {
    assert [x][1..] == "";
  }

  /** RFC 4515, section 3: each of * ( ) \ and NUL becomes a backslash and two hexadecimal digits. */
  function FilterChar(c: char): string {
    if c == '\\' then "\\5c"
    else if c == '*' then "\\2a"
    else if c == '(' then "\\28"
    else if c == ')' then "\\29"
    else if c == NUL then "\\00"
    else [c]
  }

  /** RFC 4514, section 2.4: the characters that are escaped wherever they stand. */
  function DnChar(c: char): string {
    if c in "\\\"+,;<>" then ['\\', c]
    else if c == NUL then "\\00"
    else [c]
  }

  function EachChar(s: string, f: char -> string): string {
    if s == "" then "" else f(s[0]) + EachChar(s[1..], f)
  }

  lemma FilterConcat(a: string, b: string)
    ensures EscapeFilterValue(a + b) == EscapeFilterValue(a) + EscapeFilterValue(b)
  {
    var a1, b1 := ReplaceAll(a, '\\', "\\5c"), ReplaceAll(b, '\\', "\\5c");
    ReplaceConcat(a, b, '\\', "\\5c");
    var a2, b2 := ReplaceAll(a1, '*', "\\2a"), ReplaceAll(b1, '*', "\\2a");
    ReplaceConcat(a1, b1, '*', "\\2a");
    var a3, b3 := ReplaceAll(a2, '(', "\\28"), ReplaceAll(b2, '(', "\\28");
    ReplaceConcat(a2, b2, '(', "\\28");
    var a4, b4 := ReplaceAll(a3, ')', "\\29"), ReplaceAll(b3, ')', "\\29");
    ReplaceConcat(a3, b3, ')', "\\29");
    ReplaceConcat(a4, b4, NUL, "\\00");
  }

  lemma FilterOne(c: char)
    ensures EscapeFilterValue([c]) == FilterChar(c)
  {
    ReplaceOne(c, '\\', "\\5c");
    var s1 := ReplaceAll([c], '\\', "\\5c");
    if c == '*' { ReplaceOne(c, '*', "\\2a"); } else { ReplaceNone(s1, '*', "\\2a"); }
    var s2 := ReplaceAll(s1, '*', "\\2a");
    if c == '(' { ReplaceOne(c, '(', "\\28"); } else { ReplaceNone(s2, '(', "\\28"); }
    var s3 := ReplaceAll(s2, '(', "\\28");
    if c == ')' { ReplaceOne(c, ')', "\\29"); } else { ReplaceNone(s3, ')', "\\29"); }
    var s4 := ReplaceAll(s3, ')', "\\29");
    if c == NUL { ReplaceOne(c, NUL, "\\00"); } else { ReplaceNone(s4, NUL, "\\00"); }
  }

  /** The five chained replacements are one substitution of each character. */
  lemma {:induction false} FilterIsPerChar(value: string)
    ensures EscapeFilterValue(value) == EachChar(value, FilterChar)
  {
    if value == "" {
    } else {
      assert value == [value[0]] + value[1..];
      FilterConcat([value[0]], value[1..]);
      FilterOne(value[0]);
      FilterIsPerChar(value[1..]);
    }
  }

  lemma DnConcat(a: string, b: string)
    ensures EscapeDnChars(a + b) == EscapeDnChars(a) + EscapeDnChars(b)
  {
    var a1, b1 := ReplaceAll(a, '\\', "\\\\"), ReplaceAll(b, '\\', "\\\\");
    ReplaceConcat(a, b, '\\', "\\\\");
    var a2, b2 := ReplaceAll(a1, '"', "\\\""), ReplaceAll(b1, '"', "\\\"");
    ReplaceConcat(a1, b1, '"', "\\\"");
    var a3, b3 := ReplaceAll(a2, '+', "\\+"), ReplaceAll(b2, '+', "\\+");
    ReplaceConcat(a2, b2, '+', "\\+");
    var a4, b4 := ReplaceAll(a3, ',', "\\,"), ReplaceAll(b3, ',', "\\,");
    ReplaceConcat(a3, b3, ',', "\\,");
    var a5, b5 := ReplaceAll(a4, ';', "\\;"), ReplaceAll(b4, ';', "\\;");
    ReplaceConcat(a4, b4, ';', "\\;");
    var a6, b6 := ReplaceAll(a5, '<', "\\<"), ReplaceAll(b5, '<', "\\<");
    ReplaceConcat(a5, b5, '<', "\\<");
    var a7, b7 := ReplaceAll(a6, '>', "\\>"), ReplaceAll(b6, '>', "\\>");
    ReplaceConcat(a6, b6, '>', "\\>");
    ReplaceConcat(a7, b7, NUL, "\\00");
  }

  /** One replacement of a character that has been escaped already, or not yet. */
  lemma ReplaceStep(s: string, x: char, c: char)
    requires s == [x] || (s == ['\\', x] && x != c && c != '\\')
    ensures ReplaceAll(s, c, ['\\', c]) == if x == c then ['\\', c] else s
  {
    if s == [x] {
      ReplaceOne(x, c, ['\\', c]);
    } else {
      ReplaceNone(s, c, ['\\', c]);
    }
  }

  lemma DnOne(c: char)
    ensures EscapeDnChars([c]) == DnChar(c)
  {
    var s0 := [c];
    ReplaceStep(s0, c, '\\');
    var s1 := ReplaceAll(s0, '\\', "\\\\");
    ReplaceStep(s1, c, '"');
    var s2 := ReplaceAll(s1, '"', "\\\"");
    ReplaceStep(s2, c, '+');
    var s3 := ReplaceAll(s2, '+', "\\+");
    ReplaceStep(s3, c, ',');
    var s4 := ReplaceAll(s3, ',', "\\,");
    ReplaceStep(s4, c, ';');
    var s5 := ReplaceAll(s4, ';', "\\;");
    ReplaceStep(s5, c, '<');
    var s6 := ReplaceAll(s5, '<', "\\<");
    ReplaceStep(s6, c, '>');
    var s7 := ReplaceAll(s6, '>', "\\>");
    if c == NUL { ReplaceOne(c, NUL, "\\00"); } else { ReplaceNone(s7, NUL, "\\00"); }
  }

  lemma {:induction false} DnIsPerChar(value: string)
    ensures EscapeDnChars(value) == EachChar(value, DnChar)
  {
    if value == "" {
    } else {
      assert value == [value[0]] + value[1..];
      DnConcat([value[0]], value[1..]);
      DnOne(value[0]);
      DnIsPerChar(value[1..]);
    }
  }

  // ---- Escaped text as a list of pieces

  predicate IsHex(c: char) {
    '0' <= c <= '9' || 'a' <= c <= 'f' || 'A' <= c <= 'F'
  }

  /** `parseInt(c, 16)` */
  function HexDigit(c: char): (n: nat)
    requires IsHex(c)
    ensures n < 16
  {
    if c <= '9' then c as int - '0' as int
    else if c <= 'F' then c as int - 'A' as int + 10
    else c as int - 'a' as int + 10
  }

  /** The sixteen digits, the last six in either case, and no other character. */
  lemma HexDigits(c: char)
    ensures IsHex(c) <==> c in "0123456789abcdef" || c in "0123456789ABCDEF"
    ensures forall i: nat | i < 16 :: HexDigit("0123456789abcdef"[i]) == i && HexDigit("0123456789ABCDEF"[i]) == i
  {
  }

  datatype Piece = Plain(c: char) | Pair(c: char) | HexPair(hi: char, lo: char)

  /** A backslash is never plain, and `\X` is a character escape only when X is not a hexadecimal digit. */
  predicate Readable(p: Piece) {
    match p
    case Plain(c) => c != '\\'
    case Pair(c) => !IsHex(c)
    case HexPair(hi, lo) => IsHex(hi) && IsHex(lo)
  }

  /**
    * A piece that stands for one character, apart from what is around it:
    * a hexadecimal escape of an ASCII byte only.
    */
  predicate ValidPiece(p: Piece) {
    Readable(p) && (p.HexPair? ==> HexDigit(p.hi) < 8)
  }

  predicate Valid(ps: seq<Piece>) {
    forall p <- ps :: ValidPiece(p)
  }

  function PieceText(p: Piece): string {
    match p
    case Plain(c) => [c]
    case Pair(c) => ['\\', c]
    case HexPair(hi, lo) => ['\\', hi, lo]
  }

  function PieceValue(p: Piece): char
    requires ValidPiece(p)
  {
    match p
    case Plain(c) => c
    case Pair(c) => c
    case HexPair(hi, lo) => (16 * HexDigit(hi) + HexDigit(lo)) as char
  }

  function PiecesText(ps: seq<Piece>): string {
    if ps == [] then "" else PieceText(ps[0]) + PiecesText(ps[1..])
  }

  function PiecesValue(ps: seq<Piece>): (v: string)
    requires Valid(ps)
    ensures |v| == |ps|
  {
    seq(|ps|, i requires 0 <= i < |ps| => PieceValue(ps[i]))
  }

  lemma {:induction false} PiecesConcat(a: seq<Piece>, b: seq<Piece>)
    ensures PiecesText(a + b) == PiecesText(a) + PiecesText(b)
  {
    if a == [] {
      assert a + b == b;
    } else {
      PiecesConcat(a[1..], b);
      assert (a + b)[1..] == a[1..] + b && (a + b)[0] == a[0];
      Regroup(PieceText(a[0]), PiecesText(a[1..]), PiecesText(b));
    }
  }

  function FilterPiece(c: char): (p: Piece)
    ensures ValidPiece(p) && PieceText(p) == FilterChar(c) && PieceValue(p) == c
  {
    if c == '\\' then HexPair('5', 'c')
    else if c == '*' then HexPair('2', 'a')
    else if c == '(' then HexPair('2', '8')
    else if c == ')' then HexPair('2', '9')
    else if c == NUL then HexPair('0', '0')
    else Plain(c)
  }

  function DnPiece(c: char): (p: Piece)
    ensures ValidPiece(p) && PieceText(p) == DnChar(c) && PieceValue(p) == c
    ensures p != Plain(',')
  {
    if c in "\\\"+,;<>" then Pair(c)
    else if c == NUL then HexPair('0', '0')
    else Plain(c)
  }

  function MapPieces(s: string, f: char -> Piece): (ps: seq<Piece>)
    ensures |ps| == |s|
    ensures forall i | 0 <= i < |s| :: ps[i] == f(s[i])
  {
    seq(|s|, i requires 0 <= i < |s| => f(s[i]))
  }

  lemma {:induction false} EachCharIsPieces(s: string, f: char -> string, g: char -> Piece)
    requires forall c <- s :: PieceText(g(c)) == f(c)
    ensures EachChar(s, f) == PiecesText(MapPieces(s, g))
  {
    if s == "" {
    } else {
      EachCharIsPieces(s[1..], f, g);
      assert MapPieces(s, g)[1..] == MapPieces(s[1..], g);
    }
  }

  // ---- Unescaping

  /** `Buffer.from(bytes).toString("utf8")`, of which only its action on ASCII bytes matters here. */
  type Utf8 = seq<nat> -> string

  function AsciiChars(bytes: seq<nat>): (s: string)
    requires forall b <- bytes :: b < 128
    ensures |s| == |bytes|
  {
    seq(|bytes|, i requires 0 <= i < |bytes| => assert bytes[i] in bytes; bytes[i] as char)
  }

  ghost predicate DecodesAscii(utf8: Utf8) {
    forall bytes: seq<nat> | forall b <- bytes :: b < 128 :: utf8(bytes) == AsciiChars(bytes)
  }

  /** Appends the bytes of pending hexadecimal escapes to the output. */
  function Flush(utf8: Utf8, out: string, pending: seq<nat>): string {
    if pending == [] then out else out + utf8(pending)
  }

  /** The result of `unescapeRfc4514` when it is at position i with `out` and `pending` so far. */
  function UnescapeFrom(utf8: Utf8, value: string, i: nat, out: string, pending: seq<nat>): string
    requires i <= |value|
    decreases |value| - i
  {
    if i == |value| then Flush(utf8, out, pending)
    else if value[i] == '\\' && i + 1 < |value| then
      if i + 2 < |value| && IsHex(value[i + 1]) && IsHex(value[i + 2]) then
        UnescapeFrom(utf8, value, i + 3, out, pending + [16 * HexDigit(value[i + 1]) + HexDigit(value[i + 2])])
      else UnescapeFrom(utf8, value, i + 2, Flush(utf8, out, pending) + [value[i + 1]], [])
    else UnescapeFrom(utf8, value, i + 1, Flush(utf8, out, pending) + [value[i]], [])
  }

  function Unescape(utf8: Utf8, value: string): string {
    UnescapeFrom(utf8, value, 0, "", [])
  }

  /** `unescapeRfc4514` */
  method UnescapeRfc4514(utf8: Utf8, value: string) returns (out: string)
    ensures out == Unescape(utf8, value)
  {
    out := "";
    var pendingBytes: seq<nat> := [];
    var i := 0;
    while i < |value|
      invariant i <= |value|
      invariant Unescape(utf8, value) == UnescapeFrom(utf8, value, i, out, pendingBytes)
    {
      var ch := value[i];
      if ch == '\\' && i + 1 < |value| {
        var next := value[i + 1];
        if i + 2 < |value| && IsHex(next) && IsHex(value[i + 2]) {
          pendingBytes := pendingBytes + [16 * HexDigit(next) + HexDigit(value[i + 2])];
          i := i + 3;
          continue;
        }
        out := Flush(utf8, out, pendingBytes);
        pendingBytes := [];
        out := out + [next];
        i := i + 2;
        continue;
      }
      out := Flush(utf8, out, pendingBytes);
      pendingBytes := [];
      out := out + [ch];
      i := i + 1;
    }
    out := Flush(utf8, out, pendingBytes);
  }

  function ByteOf(p: Piece): (b: nat)
    requires Readable(p) && p.HexPair?
    ensures b < 256
  {
    16 * HexDigit(p.hi) + HexDigit(p.lo)
  }

  predicate AllReadable(ps: seq<Piece>) {
    forall p <- ps :: Readable(p)
  }

  /** What pieces stand for behind pending bytes: each run of hexadecimal escapes is decoded as a whole. */
  function Meaning(utf8: Utf8, ps: seq<Piece>, pending: seq<nat>): string
    requires AllReadable(ps)
  {
    if ps == [] then Flush(utf8, "", pending)
    else if ps[0].HexPair? then Meaning(utf8, ps[1..], pending + [ByteOf(ps[0])])
    else Flush(utf8, "", pending) + ([ps[0].c] + Meaning(utf8, ps[1..], []))
  }

  /** Unescaping a list of pieces gives what they stand for. */
  lemma {:induction false} UnescapePieces(utf8: Utf8, text: string, i: nat, ps: seq<Piece>,
        out: string, pending: seq<nat>)
    requires AllReadable(ps)
    requires Has(text, i, PiecesText(ps)) && i + |PiecesText(ps)| == |text|
    ensures UnescapeFrom(utf8, text, i, out, pending) == out + Meaning(utf8, ps, pending)
    decreases |ps|
  {
    if ps == [] {
      FlushAppends(utf8, out, pending);
    } else {
      var p, rest := ps[0], ps[1..];
      assert Readable(p);
      UnescapeFirst(utf8, text, i, out, pending, p, rest);
      var out', pending' := Behind(utf8, p, out, pending).0, Behind(utf8, p, out, pending).1;
      UnescapePieces(utf8, text, i + |PieceText(p)|, rest, out', pending');
      MeaningFirst(utf8, ps, out, pending);
    }
  }

  /** The output and the pending bytes behind a piece. */
  function Behind(utf8: Utf8, p: Piece, out: string, pending: seq<nat>): (string, seq<nat>)
    requires Readable(p)
  {
    if p.HexPair? then (out, pending + [ByteOf(p)]) else (Flush(utf8, out, pending) + [p.c], [])
  }

  lemma MeaningFirst(utf8: Utf8, ps: seq<Piece>, out: string, pending: seq<nat>)
    requires AllReadable(ps) && ps != []
    ensures var (out', pending') := Behind(utf8, ps[0], out, pending);
            out + Meaning(utf8, ps, pending) == out' + Meaning(utf8, ps[1..], pending')
  {
    FlushAppends(utf8, out, pending);
    if !ps[0].HexPair? {
      JoinMeaning(out, Flush(utf8, "", pending), ps[0].c, Meaning(utf8, ps[1..], []));
    }
  }

  lemma UnescapeFirst(utf8: Utf8, text: string, i: nat, out: string, pending: seq<nat>, p: Piece, rest: seq<Piece>)
    requires Readable(p) && Has(text, i, PieceText(p) + PiecesText(rest))
    ensures Has(text, i + |PieceText(p)|, PiecesText(rest))
    ensures var (out', pending') := Behind(utf8, p, out, pending);
            UnescapeFrom(utf8, text, i, out, pending) == UnescapeFrom(utf8, text, i + |PieceText(p)|, out', pending')
  {
    HasParts(text, i, PieceText(p), PiecesText(rest));
    UnescapeStep(utf8, text, i, out, pending, p);
  }

  lemma FlushAppends(utf8: Utf8, out: string, pending: seq<nat>)
    ensures Flush(utf8, out, pending) == out + Flush(utf8, "", pending)
  {
    assert out + "" == out && "" + utf8(pending) == utf8(pending);
  }

  lemma JoinMeaning(out: string, bytes: string, c: char, rest: string)
    ensures (out + bytes) + [c] + rest == out + (bytes + ([c] + rest))
  {
  }

  lemma UnescapeStep(utf8: Utf8, text: string, i: nat, out: string, pending: seq<nat>, p: Piece)
    requires Readable(p) && Has(text, i, PieceText(p))
    ensures UnescapeFrom(utf8, text, i, out, pending) ==
            if p.HexPair? then UnescapeFrom(utf8, text, i + 3, out, pending + [ByteOf(p)])
            else UnescapeFrom(utf8, text, i + |PieceText(p)|, Flush(utf8, out, pending) + [p.c], [])
  {
    PieceChars(text, i, p);
  }

  /** If all bytes are ASCII, every piece stands for its own character. */
  lemma {:induction false} AsciiMeaning(utf8: Utf8, ps: seq<Piece>, pending: seq<nat>)
    requires DecodesAscii(utf8) && Valid(ps)
    requires forall b <- pending :: b < 128
    ensures Meaning(utf8, ps, pending) == AsciiChars(pending) + PiecesValue(ps)
    decreases |ps|
  {
    FlushReads(utf8, pending);
    if ps == [] {
      assert AsciiChars(pending) + PiecesValue(ps) == AsciiChars(pending);
    } else {
      var p, rest := ps[0], ps[1..];
      assert ValidPiece(p);
      assert PiecesValue(ps) == [PieceValue(p)] + PiecesValue(rest);
      if p.HexPair? {
        assert AsciiChars(pending + [ByteOf(p)]) == AsciiChars(pending) + [PieceValue(p)];
        AsciiMeaning(utf8, rest, pending + [ByteOf(p)]);
        Regroup(AsciiChars(pending), [PieceValue(p)], PiecesValue(rest));
      } else {
        AsciiMeaning(utf8, rest, []);
        assert AsciiChars([]) + PiecesValue(rest) == PiecesValue(rest);
      }
    }
  }

  lemma FlushReads(utf8: Utf8, pending: seq<nat>)
    requires DecodesAscii(utf8) && forall b <- pending :: b < 128
    ensures Flush(utf8, "", pending) == AsciiChars(pending)
  {
    assert "" + utf8(pending) == utf8(pending);
  }

  lemma PieceChars(text: string, i: nat, p: Piece)
    requires Has(text, i, PieceText(p))
    ensures i + |PieceText(p)| <= |text|
    ensures p.Plain? ==> text[i] == p.c
    ensures p.Pair? ==> text[i] == '\\' && text[i + 1] == p.c
    ensures p.HexPair? ==> text[i] == '\\' && text[i + 1] == p.hi && text[i + 2] == p.lo
  {
    HasElement(text, i, PieceText(p), 0);
    HasElement(text, i, PieceText(p), |PieceText(p)| - 1);
    if p.HexPair? {
      HasElement(text, i, PieceText(p), 1);
    }
  }

  /** Unescaping any pieces, runs of hexadecimal escapes of any bytes included. */
  lemma UnescapeText(utf8: Utf8, ps: seq<Piece>)
    requires AllReadable(ps)
    ensures Unescape(utf8, PiecesText(ps)) == Meaning(utf8, ps, [])
  {
    var text := PiecesText(ps);
    UnescapePieces(utf8, text, 0, ps, "", []);
    assert "" + Meaning(utf8, ps, []) == Meaning(utf8, ps, []);
  }

  lemma UnescapeAscii(utf8: Utf8, ps: seq<Piece>)
    requires DecodesAscii(utf8) && Valid(ps)
    ensures Unescape(utf8, PiecesText(ps)) == PiecesValue(ps)
  {
    UnescapeText(utf8, ps);
    AsciiMeaning(utf8, ps, []);
    assert AsciiChars([]) + PiecesValue(ps) == PiecesValue(ps);
  }

  predicate IsRun(ps: seq<Piece>) {
    forall i | 0 <= i < |ps| :: ps[i].HexPair? && IsHex(ps[i].hi) && IsHex(ps[i].lo)
  }

  /** The bytes of a run of hexadecimal escapes, first digit first. */
  function RunBytes(ps: seq<Piece>): seq<nat>
    requires IsRun(ps)
  {
    seq(|ps|, i requires 0 <= i < |ps| => 16 * HexDigit(ps[i].hi) + HexDigit(ps[i].lo))
  }

  lemma {:induction false} RunMeaning(utf8: Utf8, ps: seq<Piece>, pending: seq<nat>)
    requires IsRun(ps) && AllReadable(ps) && |pending| + |ps| > 0
    ensures Meaning(utf8, ps, pending) == utf8(pending + RunBytes(ps))
    decreases |ps|
  {
    if ps == [] {
      assert pending + RunBytes(ps) == pending && "" + utf8(pending) == utf8(pending);
    } else {
      RunMeaning(utf8, ps[1..], pending + [ByteOf(ps[0])]);
      assert pending + [ByteOf(ps[0])] + RunBytes(ps[1..]) == pending + RunBytes(ps);
    }
  }

  /** A run of hexadecimal escapes is decoded as a whole. */
  lemma HexRun(utf8: Utf8, ps: seq<Piece>)
    requires IsRun(ps) && ps != []
    ensures Unescape(utf8, PiecesText(ps)) == utf8(RunBytes(ps))
  {
    assert AllReadable(ps);
    UnescapeText(utf8, ps);
    RunMeaning(utf8, ps, []);
    assert [] + RunBytes(ps) == RunBytes(ps);
  }

  lemma OnePieceText(p: Piece, q: Piece)
    ensures PiecesText([p]) == PieceText(p)
    ensures PiecesText([p, q]) == PieceText(p) + PieceText(q)
  {
    assert [p][1..] == [] && [p, q][1..] == [q] && [q][1..] == [];
    assert PieceText(p) + "" == PieceText(p) && PieceText(q) + "" == PieceText(q);
  }

  /** Hexadecimal digits count in either case. */
  lemma CapitalsRead(utf8: Utf8)
    ensures Unescape(utf8, "\\2C") == Unescape(utf8, "\\2c") == utf8([0x2c])
    ensures Unescape(utf8, "\\C3\\A9") == utf8([0xc3, 0xa9])
  {
    var large, small, first, second := HexPair('2', 'C'), HexPair('2', 'c'), HexPair('C', '3'), HexPair('A', '9');
    OnePieceText(large, small);
    OnePieceText(small, small);
    OnePieceText(first, second);
    HexRun(utf8, [large]);
    HexRun(utf8, [small]);
    HexRun(utf8, [first, second]);
    assert RunBytes([large]) == [0x2c] && RunBytes([small]) == [0x2c];
    assert RunBytes([first, second]) == [0xc3, 0xa9];
    assert PieceText(large) == "\\2C" && PieceText(small) == "\\2c";
    assert PieceText(first) + PieceText(second) == "\\C3\\A9";
  }

  /** A backslash at the end stands for itself; before a single hexadecimal digit it makes that digit plain. */
  lemma HalfEscapes(utf8: Utf8, c: char, d: char)
    requires IsHex(c) && !IsHex(d) && d != '\\'
    ensures Unescape(utf8, "\\") == "\\"
    ensures Unescape(utf8, ['\\', c]) == [c]
    ensures Unescape(utf8, ['\\', c, d]) == [c, d]
  {
    var text := ['\\', c, d];
    assert UnescapeFrom(utf8, text, 3, "" + [c] + [d], []) == [c, d];
    assert UnescapeFrom(utf8, text, 2, "" + [c], []) == [c, d];
    assert UnescapeFrom(utf8, ['\\', c], 2, "" + [c], []) == [c];
    assert UnescapeFrom(utf8, "\\", 1, "" + ['\\'], []) == "\\";
  }

  // ---- Text escaped byte by byte

  function HexChar(n: nat): (c: char)
    requires n < 16
    ensures IsHex(c) && HexDigit(c) == n
  {
    "0123456789abcdef"[n]
  }

  function BytePiece(b: nat): (p: Piece)
    requires b < 256
    ensures Readable(p) && p.HexPair? && ByteOf(p) == b
  {
    HexPair(HexChar(b / 16), HexChar(b % 16))
  }

  predicate AreBytes(bytes: seq<nat>) {
    forall i | 0 <= i < |bytes| :: bytes[i] < 256
  }

  function BytePieces(bytes: seq<nat>): (ps: seq<Piece>)
    requires AreBytes(bytes)
    ensures |ps| == |bytes| && AllReadable(ps)
  {
    seq(|bytes|, i requires 0 <= i < |bytes| => BytePiece(bytes[i]))
  }

  lemma {:induction false} BytesMeaning(utf8: Utf8, bytes: seq<nat>, pending: seq<nat>)
    requires AreBytes(bytes)
    ensures Meaning(utf8, BytePieces(bytes), pending) == Flush(utf8, "", pending + bytes)
    decreases |bytes|
  {
    if bytes == [] {
      assert pending + bytes == pending;
    } else {
      assert BytePieces(bytes)[1..] == BytePieces(bytes[1..]);
      BytesMeaning(utf8, bytes[1..], pending + [bytes[0]]);
      AppendOne(pending, bytes[0], bytes[1..]);
      assert [bytes[0]] + bytes[1..] == bytes;
    }
  }

  /**
    * Any text, written as the hexadecimal escapes of its bytes, is read back, because the run is decoded
    * as a whole; `encode` is any encoding that the decoder inverts.
    */
  lemma HexRoundTrip(utf8: Utf8, encode: string -> seq<nat>, value: string)
    requires utf8(encode(value)) == value && (encode(value) == [] ==> value == "")
    requires AreBytes(encode(value))
    ensures Unescape(utf8, PiecesText(BytePieces(encode(value)))) == value
  {
    var bytes := encode(value);
    UnescapeText(utf8, BytePieces(bytes));
    BytesMeaning(utf8, bytes, []);
    assert [] + bytes == bytes && "" + utf8(bytes) == utf8(bytes);
  }

  // ---- The filter escape

  /** `unescapeRfc4514` inverts `escapeLdapFilterValue` on every string. */
  lemma FilterRoundTrip(utf8: Utf8, value: string)
    requires DecodesAscii(utf8)
    ensures Unescape(utf8, EscapeFilterValue(value)) == value
  {
    FilterIsPerChar(value);
    EachCharIsPieces(value, FilterChar, FilterPiece);
    var ps := MapPieces(value, FilterPiece);
    UnescapeAscii(utf8, ps);
    assert PiecesValue(ps) == value;
  }

  /** Not a special character of filters, unless a backslash with two hexadecimal digits behind it. */
  predicate SafeAt(e: string, i: nat)
    requires i < |e|
  {
    && e[i] != '*' && e[i] != '(' && e[i] != ')' && e[i] != NUL
    && (e[i] == '\\' ==> i + 2 < |e| && IsHex(e[i + 1]) && IsHex(e[i + 2]))
  }

  /**
    * An escaped filter value has no * ( ) or NUL in it, and every backslash in it is
    * followed by two hexadecimal digits.
    */
  lemma {:induction false} FilterIsSafe(value: string)
    ensures forall i | 0 <= i < |EscapeFilterValue(value)| :: SafeAt(EscapeFilterValue(value), i)
  {
    FilterIsPerChar(value);
    if value == "" {
    } else {
      FilterIsPerChar(value[1..]);
      FilterIsSafe(value[1..]);
      var p, rest := FilterChar(value[0]), EscapeFilterValue(value[1..]);
      forall i | 0 <= i < |p + rest|
        ensures SafeAt(p + rest, i)
      {
        if i < |p| {
          assert (p + rest)[..|p|] == p;
        } else {
          assert SafeAt(rest, i - |p|);
        }
      }
    }
  }

  // ---- The DN escape

  /** The pieces of an escaped DN value: the one-space value is the odd one out. */
  function DnPieces(value: string): (ps: seq<Piece>)
    ensures Valid(ps)
    ensures Plain(',') !in ps
  {
    if value == " " then [Pair('\\'), Plain(' ')]
    else
      seq(|value|, i requires 0 <= i < |value| =>
        if i == 0 && value[i] == '#' then Pair('#')
        else if (i == 0 || i == |value| - 1) && value[i] == ' ' then Pair(' ')
        else DnPiece(value[i]))
  }

  lemma EscapedIsPieces(value: string)
    ensures EscapeDnValue(value) == PiecesText(DnPieces(value))
  {
    DnIsPerChar(value);
    if |value| == 1 {
      DnOne(value[0]);
      assert value == [value[0]];
      ShortEscape(value[0]);
    } else if |value| >= 2 {
      EachCharIsPieces(value, DnChar, DnPiece);
      LongEscape(value, MapPieces(value, DnPiece));
    }
  }

  lemma ShortEscape(c: char)
    requires EscapeDnChars([c]) == DnChar(c)
    ensures EscapeDnValue([c]) == PiecesText(DnPieces([c]))
  {
    if c == ' ' {
      PiecesConcat([Pair('\\')], [Plain(' ')]);
      OnePiece(Pair('\\'));
      OnePiece(Plain(' '));
      assert DnPieces([c]) == [Pair('\\')] + [Plain(' ')];
    } else {
      var p := DnPieces([c])[0];
      assert DnPieces([c]) == [p];
      OnePiece(p);
    }
  }

  lemma OnePiece(p: Piece)
    ensures PiecesText([p]) == PieceText(p)
  {
    assert [p][1..] == [];
  }

  /** A first piece, a middle and a last piece. */
  lemma Sandwich(first: Piece, mid: seq<Piece>, last: Piece)
    ensures PiecesText([first] + mid + [last]) == PieceText(first) + PiecesText(mid) + PieceText(last)
  {
    PiecesConcat([first] + mid, [last]);
    PiecesConcat([first], mid);
    OnePiece(first);
    OnePiece(last);
  }

  lemma LongEscape(value: string, base: seq<Piece>)
    requires |value| >= 2 && base == MapPieces(value, DnPiece)
    requires EscapeDnChars(value) == PiecesText(base)
    ensures EscapeDnValue(value) == PiecesText(DnPieces(value))
  {
    var n := |value| - 1;
    var mid := MapPieces(value[1..n], DnPiece);
    LongPieces(value, mid);
    Sandwich(DnPiece(value[0]), mid, DnPiece(value[n]));
    Sandwich(DnFirstPiece(value[0]), mid, DnLastPiece(value[n]));
    EscapeEnds(value[0], PiecesText(mid), value[n]);
  }

  lemma LongPieces(value: string, mid: seq<Piece>)
    requires |value| >= 2 && mid == MapPieces(value[1..|value| - 1], DnPiece)
    ensures MapPieces(value, DnPiece) == [DnPiece(value[0])] + mid + [DnPiece(value[|value| - 1])]
    ensures DnPieces(value) == [DnFirstPiece(value[0])] + mid + [DnLastPiece(value[|value| - 1])]
  {
  }

  lemma EscapeEnds(first: char, m: string, last: char)
    ensures EscapeTrailingSpace(EscapeLeadingSpace(EscapeHash(DnChar(first) + m + DnChar(last)))) ==
            PieceText(DnFirstPiece(first)) + m + PieceText(DnLastPiece(last))
  {
    Regroup(DnChar(first), m, DnChar(last));
    EscapeFront(first, m + DnChar(last));
    Regroup(PieceText(DnFirstPiece(first)), m, DnChar(last));
    EscapeBack(last, PieceText(DnFirstPiece(first)) + m);
  }

  function DnFirstPiece(c: char): Piece {
    if c == '#' || c == ' ' then Pair(c) else DnPiece(c)
  }

  function DnLastPiece(c: char): Piece {
    if c == ' ' then Pair(c) else DnPiece(c)
  }

  /** The two checks at the front of the value act on its first piece. */
  lemma EscapeFront(c: char, rest: string)
    ensures EscapeLeadingSpace(EscapeHash(DnChar(c) + rest)) == PieceText(DnFirstPiece(c)) + rest
  {
    var s := DnChar(c) + rest;
    if c == '#' {
      assert "\\" + s == ['\\', '#'] + rest;
    } else if c == ' ' {
      assert s[1..] == rest;
    }
  }

  /** The check at the end acts on the last piece. */
  lemma EscapeBack(c: char, before: string)
    ensures EscapeTrailingSpace(before + DnChar(c)) == before + PieceText(DnLastPiece(c))
  {
    var s := before + DnChar(c);
    assert s[|s| - 1] == DnChar(c)[|DnChar(c)| - 1];
    if c == ' ' {
      assert s[..|s| - 1] == before;
    }
  }

  /** A character that may stand in a DN value as it is, section 2.4 of RFC 4514. */
  predicate NeedsNoEscape(c: char) {
    && c != '"' && c != '+' && c != ',' && c != ';' && c != '<' && c != '>' && c != '\\' && c != NUL
  }

  /**
    * The escaped value is a list of escapes and of characters that need none, and it neither begins with
    * a plain # or space nor ends with a plain space; only the single space is escaped otherwise.
    */
  lemma DnIsSafe(value: string) returns (ps: seq<Piece>)
    ensures EscapeDnValue(value) == PiecesText(ps) && AllReadable(ps)
    ensures forall p <- ps | p.Plain? :: NeedsNoEscape(p.c)
    ensures |ps| >= |value|
    ensures value != "" ==> ps[0] != Plain('#') && ps[0] != Plain(' ')
    ensures value != "" && value != " " ==> ps[|ps| - 1] != Plain(' ')
  {
    ps := DnPieces(value);
    EscapedIsPieces(value);
    forall i | 0 <= i < |ps|
      ensures Readable(ps[i]) && (ps[i].Plain? ==> NeedsNoEscape(ps[i].c))
    {
      if value != " " {
        DnPieceIsSafe(value[i]);
      }
    }
    if value != "" && value != " " {
      DnPieceIsSafe(value[0]);
      DnPieceIsSafe(value[|value| - 1]);
    }
  }

  lemma DnPieceIsSafe(c: char)
    ensures Readable(DnPiece(c)) && (DnPiece(c).Plain? ==> DnPiece(c).c == c && NeedsNoEscape(c))
  {
  }

  /** Unescaping inverts the DN escape for every value but the single space. */
  lemma DnRoundTrip(utf8: Utf8, value: string)
    requires DecodesAscii(utf8)
    ensures Unescape(utf8, EscapeDnValue(value)) == value <==> value != " "
    ensures value == " " ==> Unescape(utf8, EscapeDnValue(value)) == "\\ "
  {
    var ps := DnPieces(value);
    EscapedIsPieces(value);
    UnescapeAscii(utf8, ps);
    if value == " " {
      assert PiecesValue(ps) == "\\ ";
    } else {
      assert PiecesValue(ps) == value;
    }
  }
}
