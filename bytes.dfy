/** Bytes of the input buffer, the byte search the aggregator relies on
    (the meaning of `memchr`) and the byte-lexicographic order on station
    names (the order of `BTreeMap` keys of type `&[u8]`). */
module Bytes {

  newtype byte = x: int | 0 <= x < 256

  const NEWLINE: byte := 10   // '\n'
  const MINUS: byte := 45     // '-'
  const DOT: byte := 46       // '.'
  const ZERO: byte := 48      // '0'
  const NINE: byte := 57      // '9'
  const PLUS: byte := 43      // '+'
  const SEMICOLON: byte := 59 // ';'

  datatype Option<T> = None | Some(value: T)

  /** The position of the first occurrence of `b` in `s`, if any. */
  function IndexOf(s: seq<byte>, b: byte): (r: Option<nat>)
    ensures r.Some? ==> r.value < |s| && s[r.value] == b && b !in s[..r.value]
    ensures r.None? <==> b !in s
  {
    if |s| == 0 then None
    else if s[0] == b then Some(0)
    else match IndexOf(s[1..], b)
      case None => None
      case Some(i) =>
        assert s[..i + 1] == [s[0]] + s[1..][..i];
        Some(i + 1)
  }

  /** A position holding `b` with no `b` before it is the one `IndexOf` finds. */
  lemma {:induction false} IndexOfIsFirst(s: seq<byte>, b: byte, i: nat)
    requires i < |s| && s[i] == b && b !in s[..i]
    ensures IndexOf(s, b) == Some(i)
    decreases i
  {
    if i > 0 {
      assert s[..i][0] == s[0];
      assert s[1..][..i - 1] == s[..i][1..];
      IndexOfIsFirst(s[1..], b, i - 1);
    }
  }

  /** Bytes appended after a match do not move it. */
  lemma IndexOfPrefix(s: seq<byte>, t: seq<byte>, b: byte)
    requires IndexOf(s, b).Some?
    ensures IndexOf(s + t, b) == IndexOf(s, b)
  {
    var i := IndexOf(s, b).value;
    assert (s + t)[..i] == s[..i];
    IndexOfIsFirst(s + t, b, i);
  }

  /** A sequence is what comes before position `i`, the element there, and what follows. */
  lemma SplitAround<T>(s: seq<T>, i: nat)
    requires i < |s|
    ensures s == (s[..i] + [s[i]]) + s[i + 1..]
  {
  }

  /** Regrouping a concatenation. */
  lemma Associative<T>(a: seq<T>, b: seq<T>, c: seq<T>)
    ensures (a + b) + c == a + (b + c)
  {
  }

  lemma ConsAssociative<T>(x: T, a: seq<T>, b: seq<T>)
    ensures [x] + (a + b) == ([x] + a) + b
  {
  }

  /** A non-empty sequence is its front followed by its last element. */
  lemma SplitLast<T>(s: seq<T>)
    requires |s| > 0
    ensures s == s[..|s| - 1] + [s[|s| - 1]]
  {
  }

  lemma SlicesOfConcat(a: seq<byte>, b: seq<byte>, n: nat)
    requires n <= |b|
    ensures (a + b)[..|a| + n] == a + b[..n]
    ensures (a + b)[|a| + n..] == b[n..]
  {
  }

  /** Slicing a concatenation within its first part. */
  lemma SliceOfConcat(a: seq<byte>, b: seq<byte>, k: nat)
    requires k <= |a|
    ensures (a + b)[..k] == a[..k]
    ensures (a + b)[k..] == a[k..] + b
  {
  }

  /** Strict byte-lexicographic order: a proper prefix comes first,
      otherwise the first differing byte decides. */
  predicate Below(a: seq<byte>, b: seq<byte>)
  {
    if |a| == 0 then |b| > 0
    else |b| > 0 && (a[0] < b[0] || (a[0] == b[0] && Below(a[1..], b[1..])))
  }

  /** The textbook statement of the same order, without recursion. */
  predicate LexLess(a: seq<byte>, b: seq<byte>)
  {
    (|a| < |b| && a == b[..|a|])
    || exists i :: 0 <= i < |a| && i < |b| && a[..i] == b[..i] && a[i] < b[i]
  }

  lemma {:induction false} BelowIsLexLess(a: seq<byte>, b: seq<byte>)
    ensures Below(a, b) <==> LexLess(a, b)
    decreases |a|
  {
    if |a| == 0 || |b| == 0 {
    } else if a[0] < b[0] {
      assert a[..0] == b[..0];
    } else if a[0] > b[0] {
      forall i | 0 < i < |a| && i < |b| ensures a[..i] != b[..i] {
        assert a[..i][0] == a[0];
      }
    } else {
      BelowIsLexLess(a[1..], b[1..]);
      if LexLess(a[1..], b[1..]) {
        if |a[1..]| < |b[1..]| && a[1..] == b[1..][..|a[1..]|] {
          assert a == b[..|a|];
        } else {
          var i :| 0 <= i < |a[1..]| && i < |b[1..]| && a[1..][..i] == b[1..][..i] && a[1..][i] < b[1..][i];
          assert a[..i + 1] == [a[0]] + a[1..][..i];
          assert b[..i + 1] == [b[0]] + b[1..][..i];
        }
      }
      if LexLess(a, b) {
        if |a| < |b| && a == b[..|a|] {
          assert a[1..] == b[1..][..|a[1..]|];
        } else {
          var i :| 0 <= i < |a| && i < |b| && a[..i] == b[..i] && a[i] < b[i];
          assert i > 0;
          assert a[1..][..i - 1] == a[..i][1..];
          assert b[1..][..i - 1] == b[..i][1..];
          assert a[1..][i - 1] < b[1..][i - 1];
        }
      }
    }
  }

  lemma {:induction false} BelowIrreflexive(a: seq<byte>)
    ensures !Below(a, a)
    decreases |a|
  {
    if |a| > 0 {
      BelowIrreflexive(a[1..]);
    }
  }

  lemma {:induction false} BelowTransitive(a: seq<byte>, b: seq<byte>, c: seq<byte>)
    requires Below(a, b) && Below(b, c)
    ensures Below(a, c)
    decreases |a|
  {
    if |a| > 0 && a[0] == b[0] && b[0] == c[0] {
      BelowTransitive(a[1..], b[1..], c[1..]);
    }
  }

  lemma {:induction false} BelowTotal(a: seq<byte>, b: seq<byte>)
    requires a != b
    ensures Below(a, b) || Below(b, a)
    decreases |a|
  {
    if |a| > 0 && |b| > 0 && a[0] == b[0] {
      assert a == [a[0]] + a[1..] && b == [b[0]] + b[1..];
      BelowTotal(a[1..], b[1..]);
    }
  }

  lemma {:induction false} BelowAsymmetric(a: seq<byte>, b: seq<byte>)
    requires Below(a, b)
    ensures !Below(b, a)
  {
    if Below(b, a) {
      BelowTransitive(a, b, a);
      BelowIrreflexive(a);
    }
  }
}
