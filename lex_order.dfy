/**
 * The order of `str` that `String<N>` compares by (src/string/mod.rs,
 * `Ord`, `PartialEq` and `PartialOrd`, which all defer to `str`): the
 * lexicographic order of the UTF-8 bytes, where a proper prefix comes
 * first.
 */
module LexOrder {
  import opened Utf8Syntax

  /** `core::cmp::Ordering`. */
  datatype Ordering = Less | Equal | Greater {
    /** `Ordering::reverse`. */
    function Reverse(): Ordering {
      match this
      case Less => Greater
      case Equal => Equal
      case Greater => Less
    }
  }

  /** `<[u8] as Ord>::cmp`: byte by byte, then the shorter sequence first. */
  function Compare(a: seq<byte>, b: seq<byte>): (r: Ordering)
    ensures r == Equal <==> a == b
  {
    if a == [] then
      (if b == [] then Equal else Less)
    else if b == [] then Greater
    else if a[0] < b[0] then Less
    else if a[0] > b[0] then Greater
    else
      var r := Compare(a[1..], b[1..]);
      assert r == Equal ==> a == [a[0]] + a[1..] && b == [b[0]] + b[1..];
      r
  }

  /**
   * `a` comes before `b`: it is a proper prefix of `b`, or the two agree
   * up to an offset where `a` holds the smaller byte.
   */
  ghost predicate LexLess(a: seq<byte>, b: seq<byte>) {
    (|a| < |b| && a == b[..|a|])
    || exists k :: 0 <= k < |a| && k < |b| && a[..k] == b[..k] && a[k] < b[k]
  }

  /** Two sequences with the same first byte are ordered as their tails are. */
  lemma LexLessTail(a: seq<byte>, b: seq<byte>)
    requires |a| > 0 && |b| > 0 && a[0] == b[0]
    ensures LexLess(a, b) <==> LexLess(a[1..], b[1..])
  {
    if LexLess(a, b) {
      LexLessDropHead(a, b);
    }
    if LexLess(a[1..], b[1..]) {
      LexLessAddHead(a, b);
    }
  }

  lemma LexLessDropHead(a: seq<byte>, b: seq<byte>)
    requires |a| > 0 && |b| > 0 && a[0] == b[0] && LexLess(a, b)
    ensures LexLess(a[1..], b[1..])
  {
    if |a| < |b| && a == b[..|a|] {
      assert a[1..] == b[1..][..|a| - 1];
    } else {
      var k :| 0 <= k < |a| && k < |b| && a[..k] == b[..k] && a[k] < b[k];
      assert k > 0;
      assert a[1..][..k - 1] == a[..k][1..] && b[1..][..k - 1] == b[..k][1..];
      assert a[1..][k - 1] == a[k] && b[1..][k - 1] == b[k];
    }
  }

  lemma LexLessAddHead(a: seq<byte>, b: seq<byte>)
    requires |a| > 0 && |b| > 0 && a[0] == b[0] && LexLess(a[1..], b[1..])
    ensures LexLess(a, b)
  {
    if |a[1..]| < |b[1..]| && a[1..] == b[1..][..|a| - 1] {
      assert a == [a[0]] + a[1..] && b[..|a|] == [b[0]] + b[1..][..|a| - 1];
    } else {
      var k :| 0 <= k < |a[1..]| && k < |b[1..]| && a[1..][..k] == b[1..][..k] && a[1..][k] < b[1..][k];
      assert a[..k + 1] == [a[0]] + a[1..][..k] && b[..k + 1] == [b[0]] + b[1..][..k];
      assert a[k + 1] < b[k + 1];
    }
  }

  /** `Compare` answers `Less` exactly when `a` comes before `b`. */
  lemma {:induction false} CompareLess(a: seq<byte>, b: seq<byte>)
    ensures Compare(a, b) == Less <==> LexLess(a, b)
    decreases |a|
  {
    if a == [] {
      if b != [] {
        assert a == b[..0];
      }
    } else if b == [] {
    } else if a[0] < b[0] {
      assert a[..0] == b[..0];
    } else if a[0] > b[0] {
      if LexLess(a, b) {
        assert false;
      }
    } else {
      CompareLess(a[1..], b[1..]);
      LexLessTail(a, b);
    }
  }

  /** Swapping the operands reverses the answer. */
  lemma {:induction false} CompareReverse(a: seq<byte>, b: seq<byte>)
    ensures Compare(b, a) == Compare(a, b).Reverse()
    decreases |a|
  {
    if a != [] && b != [] && a[0] == b[0] {
      CompareReverse(a[1..], b[1..]);
    }
  }

  /** What each of the three answers means. */
  lemma CompareMeaning(a: seq<byte>, b: seq<byte>)
    ensures Compare(a, b) == Equal <==> a == b
    ensures Compare(a, b) == Less <==> LexLess(a, b)
    ensures Compare(a, b) == Greater <==> LexLess(b, a)
  {
    CompareLess(a, b);
    CompareLess(b, a);
    CompareReverse(a, b);
  }

  /** The order is transitive. */
  lemma {:induction false} CompareTransitive(a: seq<byte>, b: seq<byte>, c: seq<byte>)
    requires Compare(a, b) == Less && Compare(b, c) == Less
    ensures Compare(a, c) == Less
    decreases |a|
  {
    if a != [] && a[0] == c[0] {
      CompareTransitive(a[1..], b[1..], c[1..]);
    }
  }

  /** Exactly one of "before", "equal" and "after" holds for any two sequences. */
  lemma Trichotomy(a: seq<byte>, b: seq<byte>)
    ensures LexLess(a, b) || a == b || LexLess(b, a)
    ensures !(LexLess(a, b) && LexLess(b, a)) && !(LexLess(a, b) && a == b)
  {
    CompareMeaning(a, b);
  }
}
