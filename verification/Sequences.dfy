/**
  * Facts about sequences: what stands at a position of a longer sequence, regrouping, and concatenation of a list
  * of sequences. The predicate `Has` says that one sequence stands in another at a position; its lemmas
  * take it apart into elements, slices and parts, so that proofs about parsers never
  * have to reason about indices of concatenations themselves.
  */
module Sequences {
  // ---- Positions

  /** The text has `piece` at pos. */
  ghost predicate Has<T>(text: seq<T>, pos: nat, piece: seq<T>) {
    pos + |piece| <= |text| && forall i | 0 <= i < |piece| :: text[pos + i] == piece[i]
  }

  lemma HasParts<T>(text: seq<T>, pos: nat, a: seq<T>, b: seq<T>)
    requires Has(text, pos, a + b)
    ensures Has(text, pos, a) && Has(text, pos + |a|, b)
  {
    assert forall i | 0 <= i < |a| :: a[i] == (a + b)[i];
    assert forall i | 0 <= i < |b| :: b[i] == (a + b)[|a| + i];
  }

  /** A piece, a separator and another piece. */
  lemma HasSeparated<T>(text: seq<T>, pos: nat, a: seq<T>, d: T, b: seq<T>)
    requires Has(text, pos, a + [d] + b)
    ensures Has(text, pos, a) && Has(text, pos + |a| + 1, b) && text[pos + |a|] == d
  {
    HasParts(text, pos, a + [d], b);
    HasParts(text, pos, a, [d]);
    HasElement(text, pos + |a|, [d], 0);
  }

  lemma HasElement<T>(text: seq<T>, pos: nat, piece: seq<T>, i: nat)
    requires Has(text, pos, piece) && i < |piece|
    ensures text[pos + i] == piece[i]
  {
  }

  lemma HasSlice<T>(text: seq<T>, pos: nat, piece: seq<T>)
    requires Has(text, pos, piece)
    ensures text[pos..pos + |piece|] == piece
  {
  }

  lemma HasTail<T>(text: seq<T>, pos: nat, piece: seq<T>)
    requires Has(text, pos, piece) && piece != []
    ensures Has(text, pos + 1, piece[1..])
  {
    assert piece == piece[..1] + piece[1..];
    HasParts(text, pos, piece[..1], piece[1..]);
  }

  // ---- Regrouping

  lemma AppendOne<T>(a: seq<T>, x: T, b: seq<T>)
    ensures a + [x] + b == a + ([x] + b)
  {
  }

  lemma Regroup<T>(a: seq<T>, b: seq<T>, c: seq<T>)
    ensures a + b + c == a + (b + c)
  {
  }

  // ---- Concatenation

  function Concat<T>(chunks: seq<seq<T>>): seq<T> {
    if chunks == [] then [] else chunks[0] + Concat(chunks[1..])
  }

  lemma {:induction false} ConcatAppend<T>(a: seq<seq<T>>, b: seq<seq<T>>)
    ensures Concat(a + b) == Concat(a) + Concat(b)
  {
    if a == [] {
      assert a + b == b;
    } else {
      ConcatAppend(a[1..], b);
      assert (a + b)[1..] == a[1..] + b;
      assert (a[0] + Concat(a[1..])) + Concat(b) == a[0] + (Concat(a[1..]) + Concat(b));
    }
  }

  /** The first i + 1 chunks are the first i chunks followed by chunk i. */
  lemma ConcatStep<T>(chunks: seq<seq<T>>, i: nat)
    requires i < |chunks|
    ensures Concat(chunks[..i + 1]) == Concat(chunks[..i]) + chunks[i]
  {
    assert chunks[..i + 1] == chunks[..i] + [chunks[i]];
    ConcatAppend(chunks[..i], [chunks[i]]);
    assert Concat([chunks[i]]) == chunks[i] + Concat<T>([]) == chunks[i];
  }

  /** All chunks but the last, then the last. */
  lemma ConcatLast<T>(chunks: seq<seq<T>>)
    requires chunks != []
    ensures Concat(chunks) == Concat(chunks[..|chunks| - 1]) + chunks[|chunks| - 1]
  {
    ConcatStep(chunks, |chunks| - 1);
    assert chunks[..|chunks|] == chunks;
  }

  /** The first i chunks followed by the others are all of them. */
  lemma ConcatSplit<T>(chunks: seq<seq<T>>, i: nat)
    requires i <= |chunks|
    ensures Concat(chunks) == Concat(chunks[..i]) + Concat(chunks[i..])
  {
    assert chunks == chunks[..i] + chunks[i..];
    ConcatAppend(chunks[..i], chunks[i..]);
  }
}
