/** Rust's `Ordering` and the two orders the derived `Ord` impls are built
    from: numeric order on integers and lexicographic order on byte arrays. */
module Orderings {
  import opened Common

  datatype Ordering = Less | Equal | Greater {
    /** The same comparison seen from the other side (`Ordering::reverse`). */
    function Reverse(): Ordering {
      match this
      case Less => Greater
      case Equal => Equal
      case Greater => Less
    }
  }

  /** `Ord::cmp` on integers. */
  function CompareInt(a: int, b: int): (r: Ordering)
    ensures r == Less <==> a < b
    ensures r == Equal <==> a == b
    ensures r == Greater <==> a > b
  {
    if a < b then Less else if a == b then Equal else Greater
  }

  /** `Ord::cmp` on byte arrays and slices: the first differing byte decides,
      and a proper prefix comes first. */
  function CompareLex(a: seq<u8>, b: seq<u8>): Ordering
    decreases |a|
  {
    if |a| == 0 then (if |b| == 0 then Equal else Less)
    else if |b| == 0 then Greater
    else if a[0] != b[0] then CompareInt(a[0], b[0])
    else CompareLex(a[1..], b[1..])
  }

  /** The lexicographic order agrees with equality. */
  lemma {:induction false} LexEqual(a: seq<u8>, b: seq<u8>)
    ensures CompareLex(a, b) == Equal <==> a == b
    decreases |a|
  {
    if |a| > 0 && |b| > 0 && a[0] == b[0] {
      LexEqual(a[1..], b[1..]);
      assert a == [a[0]] + a[1..] && b == [b[0]] + b[1..];
    }
  }

  /** Comparing the other way round gives the reversed answer. */
  lemma {:induction false} LexReverse(a: seq<u8>, b: seq<u8>)
    ensures CompareLex(b, a) == CompareLex(a, b).Reverse()
    decreases |a|
  {
    if |a| > 0 && |b| > 0 && a[0] == b[0] {
      LexReverse(a[1..], b[1..]);
    }
  }

  /** "Comes before" is transitive. */
  lemma {:induction false} LexTransitive(a: seq<u8>, b: seq<u8>, c: seq<u8>)
    requires CompareLex(a, b) == Less && CompareLex(b, c) == Less
    ensures CompareLex(a, c) == Less
    decreases |a|
  {
    if |a| > 0 && |b| > 0 && |c| > 0 && a[0] == b[0] && b[0] == c[0] {
      LexTransitive(a[1..], b[1..], c[1..]);
    }
  }

  /** For arrays of one length, `a` comes before `b` exactly when they agree
      up to some position where `a` holds the smaller byte. */
  lemma {:induction false} LexLessAt(a: seq<u8>, b: seq<u8>)
    requires |a| == |b|
    ensures CompareLex(a, b) == Less <==> exists k :: 0 <= k < |a| && a[..k] == b[..k] && a[k] < b[k]
    decreases |a|
  {
    if |a| > 0 {
      if a[0] == b[0] {
        LexLessAt(a[1..], b[1..]);
        if CompareLex(a, b) == Less {
          var k :| 0 <= k < |a| - 1 && a[1..][..k] == b[1..][..k] && a[1..][k] < b[1..][k];
          assert a[..k + 1] == [a[0]] + a[1..][..k] && b[..k + 1] == [b[0]] + b[1..][..k];
          assert a[k + 1] < b[k + 1];
        }
        if exists k :: 0 <= k < |a| && a[..k] == b[..k] && a[k] < b[k] {
          var k :| 0 <= k < |a| && a[..k] == b[..k] && a[k] < b[k];
          assert k > 0;
          assert a[1..][..k - 1] == a[..k][1..] && b[1..][..k - 1] == b[..k][1..];
          assert a[1..][k - 1] < b[1..][k - 1];
        }
      } else {
        assert a[..0] == b[..0];
        forall k | 0 < k < |a| ensures a[..k] != b[..k] {
          assert a[..k][0] != b[..k][0];
        }
      }
    }
  }
}
