/**
  * String operations of the JavaScript library that several plugins rely on: `split` at a character, `join`,
  * `trim`, and the order of strings by the codes of their characters. White space is what the library
  * takes for it, within the characters that are modelled, and the order is shown to be
  * total and transitive.
  */
module Text {

  /** `s.split(d)` for a one-character separator. */
  function SplitOn(s: string, d: char): (parts: seq<string>)
    ensures |parts| >= 1
  {
    if s == "" then [""]
    else
      var rest := SplitOn(s[1..], d);
      if s[0] == d then [""] + rest else [[s[0]] + rest[0]] + rest[1..]
  }

  /** `parts.join(d)` */
  function Join(parts: seq<string>, d: char): string {
    if parts == [] then ""
    else if |parts| == 1 then parts[0]
    else parts[0] + [d] + Join(parts[1..], d)
  }

  lemma {:induction false} SplitFirst(s: string, rest: string, d: char)
    requires d !in s
    ensures SplitOn(s + [d] + rest, d) == [s] + SplitOn(rest, d)
  {
    if s == "" {
      assert s + [d] + rest == [d] + rest;
    } else {
      SplitFirst(s[1..], rest, d);
      assert (s + [d] + rest)[1..] == s[1..] + [d] + rest;
      assert [s[0]] + s[1..] == s;
    }
  }

  lemma {:induction false} SplitNone(s: string, d: char)
    requires d !in s
    ensures SplitOn(s, d) == [s]
  {
    if s == "" {
    } else {
      SplitNone(s[1..], d);
      assert [s[0]] + s[1..] == s;
    }
  }

  /** The white space and line terminators that `trim` removes and `\s` matches. */
  predicate IsSpace(c: char) {
    var u := c as int;
    || 0x09 <= u <= 0x0d || u == 0x20 || u == 0xa0 || u == 0x1680 || 0x2000 <= u <= 0x200a
    || u == 0x2028 || u == 0x2029 || u == 0x202f || u == 0x205f || u == 0x3000 || u == 0xfeff
  }

  function TrimStart(s: string): (r: string)
    ensures r == "" || !IsSpace(r[0])
  {
    if s != "" && IsSpace(s[0]) then TrimStart(s[1..]) else s
  }

  function TrimEnd(s: string): (r: string)
    ensures r == "" || !IsSpace(r[|r| - 1])
    ensures r <= s
  {
    if s != "" && IsSpace(s[|s| - 1]) then TrimEnd(s[..|s| - 1]) else s
  }

  /** `s.trim()` */
  function Trim(s: string): string {
    TrimEnd(TrimStart(s))
  }

  // ---- Order

  /** `a < b` on strings: by their first different characters, or a is a proper prefix of b. */
  predicate TextLess(a: string, b: string) {
    if b == "" then false
    else if a == "" then true
    else a[0] < b[0] || (a[0] == b[0] && TextLess(a[1..], b[1..]))
  }

  /** `a <= b` on strings. */
  predicate TextAtMost(a: string, b: string) {
    a == b || TextLess(a, b)
  }

  lemma {:induction false} TextLessTotal(a: string, b: string)
    ensures TextLess(a, b) || a == b || TextLess(b, a)
    ensures !(TextLess(a, b) && TextLess(b, a))
  {
    if a == "" || b == "" {
    } else {
      TextLessTotal(a[1..], b[1..]);
      assert a == [a[0]] + a[1..] && b == [b[0]] + b[1..];
    }
  }

  lemma {:induction false} TextLessTransitive(a: string, b: string, c: string)
    requires TextLess(a, b) && TextLess(b, c)
    ensures TextLess(a, c)
  {
    if a == "" || b == "" || c == "" {
    } else if a[0] == b[0] && b[0] == c[0] {
      TextLessTransitive(a[1..], b[1..], c[1..]);
    }
  }

  /** The strings agree up to i, where a ends or has the smaller character. */
  predicate PrecedesAt(a: string, b: string, i: nat) {
    i <= |a| && i < |b| && a[..i] == b[..i] && (i < |a| ==> a[i] < b[i])
  }

  ghost predicate Precedes(a: string, b: string) {
    exists i: nat :: PrecedesAt(a, b, i)
  }

  lemma {:induction false} TextLessPrecedes(a: string, b: string)
    ensures TextLess(a, b) <==> Precedes(a, b)
  {
    if b == "" {
    } else if a == "" {
      assert PrecedesAt(a, b, 0);
    } else {
      TextLessPrecedes(a[1..], b[1..]);
      if a[0] < b[0] {
        assert PrecedesAt(a, b, 0);
      } else if a[0] == b[0] {
        if i: nat :| PrecedesAt(a, b, i) {
          PrecedesBehind(a, b, i - 1);
        }
        if i: nat :| PrecedesAt(a[1..], b[1..], i) {
          PrecedesBehind(a, b, i);
        }
      } else {
        forall i: nat
          ensures !PrecedesAt(a, b, i)
        {
          LaterIsNotBefore(a, b, i);
        }
      }
    }
  }

  lemma LaterIsNotBefore(a: string, b: string, i: nat)
    requires a != "" && b != "" && b[0] < a[0]
    ensures !PrecedesAt(a, b, i)
  {
    if 0 < i <= |a| && i < |b| {
      assert a[..i][0] == a[0] && b[..i][0] == b[0];
    }
  }

  lemma PrecedesBehind(a: string, b: string, i: nat)
    requires a != "" && b != "" && a[0] == b[0]
    ensures PrecedesAt(a, b, i + 1) <==> PrecedesAt(a[1..], b[1..], i)
  {
    if i + 1 <= |a| && i + 1 < |b| {
      assert a[..i + 1] == [a[0]] + a[1..][..i] && b[..i + 1] == [b[0]] + b[1..][..i];
    }
  }

  // ---- White space around a text

  predicate AllSpaces(s: string) {
    forall c <- s :: IsSpace(c)
  }

  predicate NoSpaceAtEnds(s: string) {
    s != "" ==> !IsSpace(s[0]) && !IsSpace(s[|s| - 1])
  }

  /** `trim` takes off exactly the white space at both ends. */
  lemma {:induction false} TrimStrips(before: string, s: string, after: string)
    requires AllSpaces(before) && AllSpaces(after) && NoSpaceAtEnds(s)
    ensures Trim(before + s + after) == s
    decreases |before| + |after|
  {
    var t := before + s + after;
    if before != "" {
      TrimStrips(before[1..], s, after);
      assert t[1..] == before[1..] + s + after;
    } else if after != "" {
      var rest := after[..|after| - 1];
      TrimStrips(before, s, rest);
      if s != "" {
        assert t[0] == s[0] && TrimStart(t) == t && TrimStart(before + s + rest) == before + s + rest;
        assert t[..|t| - 1] == before + s + rest && t[|t| - 1] == after[|after| - 1];
      } else {
        SpacesVanish(t);
      }
    } else {
      assert t == s;
    }
  }

  lemma {:induction false} SpacesVanish(s: string)
    requires AllSpaces(s)
    ensures Trim(s) == ""
  {
    if s == "" {
    } else {
      assert forall c <- s[1..] :: c in s;
      SpacesVanish(s[1..]);
    }
  }

  /** The blank, the tabulator and the line endings are white space; visible characters of ASCII are not. */
  lemma PlainSpaces()
    ensures AllSpaces(" \t\n\r")
    ensures forall c: char | '!' <= c <= '~' :: !IsSpace(c)
  {
  }
}
