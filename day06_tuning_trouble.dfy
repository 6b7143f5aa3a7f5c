// Day 6: Tuning Trouble. The answer is the number of bytes read when the
// last `sz` bytes are first all different: 4 for the start-of-packet
// marker, 14 for the start-of-message marker.

module TuningTrouble {
  newtype byte = b: int | 0 <= b < 256

  /** `iter().collect::<BTreeSet<_>>()`: the different bytes of a window. */
  function Elements(w: seq<byte>): set<byte>
  {
    set x | x in w
  }

  predicate Distinct(w: seq<byte>)
  {
    forall j, k :: 0 <= j < k < |w| ==> w[j] != w[k]
  }

  /** A window has as many different bytes as it is long exactly when no
      byte repeats in it. */
  lemma {:induction false} DistinctCount(w: seq<byte>)
    ensures |Elements(w)| <= |w|
    ensures |Elements(w)| == |w| <==> Distinct(w)
    decreases |w|
  {
    if w != [] {
      var rest := w[1..];
      DistinctCount(rest);
      assert Elements(w) == {w[0]} + Elements(rest) by {
        assert forall x :: x in w <==> x == w[0] || x in rest by {
          assert w == [w[0]] + rest;
        }
      }
      if w[0] in rest {
        assert Elements(w) == Elements(rest);
        var k :| 0 <= k < |rest| && rest[k] == w[0];
        assert w[k + 1] == w[0];
      } else {
        assert w[0] !in Elements(rest);
        if Distinct(rest) {
          forall j, k | 0 <= j < k < |w|
            ensures w[j] != w[k]
          {
            if j == 0 {
              assert w[k] == rest[k - 1];
            } else {
              assert w[j] == rest[j - 1] && w[k] == rest[k - 1];
            }
          }
        } else {
          var j, k :| 0 <= j < k < |rest| && rest[j] == rest[k];
          assert w[j + 1] == w[k + 1];
        }
      }
    }
  }

  /** `bytes[i..i + sz]`. */
  function Window(bytes: seq<byte>, i: nat, sz: nat): (w: seq<byte>)
    requires i + sz <= |bytes|
    ensures |w| == sz
  {
    bytes[i..i + sz]
  }

  /** The window of `sz` bytes from index `i` exists and its set has `sz`
      members. */
  predicate Marker(bytes: seq<byte>, sz: nat, i: nat)
  {
    i + sz <= |bytes| && |Elements(Window(bytes, i, sz))| == sz
  }

  /** The search reaches a qualifying window; `unwrap` panics otherwise. */
  predicate HasMarker(bytes: seq<byte>, sz: nat, i: nat)
  {
    exists j :: i <= j < |bytes| && Marker(bytes, sz, j)
  }

  /** The `find_map` of `get_first_unique_win_offset` from index `i`: the
      start of the first qualifying window. */
  function FirstMarker(bytes: seq<byte>, sz: nat, i: nat): (start: nat)
    requires HasMarker(bytes, sz, i)
    ensures i <= start && Marker(bytes, sz, start)
    ensures forall j :: i <= j < start ==> !Marker(bytes, sz, j)
    decreases |bytes| - i
  {
    if Marker(bytes, sz, i) then i
    else
      NextMarker(bytes, sz, i);
      FirstMarker(bytes, sz, i + 1)
  }

  lemma NextMarker(bytes: seq<byte>, sz: nat, i: nat)
    requires HasMarker(bytes, sz, i) && !Marker(bytes, sz, i)
    ensures HasMarker(bytes, sz, i + 1)
  {
    var j :| i <= j < |bytes| && Marker(bytes, sz, j);
    assert j != i;
  }

  /** `get_first_unique_win_offset`: the end of the first qualifying
      window. */
  function FirstUniqueOffset(bytes: seq<byte>, sz: nat): (r: nat)
    requires HasMarker(bytes, sz, 0)
    ensures sz <= r <= |bytes|
  {
    FirstMarker(bytes, sz, 0) + sz
  }

  /** The answer r is the least: the `sz` bytes before r are all
      different, and every earlier window of `sz` bytes repeats one. */
  lemma FirstUniqueLeast(bytes: seq<byte>, sz: nat)
    requires HasMarker(bytes, sz, 0)
    ensures var r := FirstUniqueOffset(bytes, sz);
      sz <= r <= |bytes| && Distinct(Window(bytes, r - sz, sz))
      && forall j :: 0 <= j < r - sz ==> !Distinct(Window(bytes, j, sz))
  {
    var r := FirstUniqueOffset(bytes, sz);
    DistinctCount(Window(bytes, r - sz, sz));
    forall j | 0 <= j < r - sz
      ensures !Distinct(Window(bytes, j, sz))
    {
      Repeats(bytes, sz, j);
    }
  }

  /** A window that is not a marker repeats a byte. */
  lemma Repeats(bytes: seq<byte>, sz: nat, j: nat)
    requires j + sz <= |bytes| && !Marker(bytes, sz, j)
    ensures !Distinct(Window(bytes, j, sz))
  {
    DistinctCount(Window(bytes, j, sz));
  }

  /** `solve_part_one`: the start-of-packet marker. */
  function PartOne(bytes: seq<byte>): nat
    requires HasMarker(bytes, 4, 0)
  {
    FirstUniqueOffset(bytes, 4)
  }

  /** `solve_part_two`: the start-of-message marker. */
  function PartTwo(bytes: seq<byte>): nat
    requires HasMarker(bytes, 14, 0)
  {
    FirstUniqueOffset(bytes, 14)
  }

  /** The last four bytes of a window without repeats have none. */
  lemma DistinctTail(bytes: seq<byte>, r: nat)
    requires 14 <= r <= |bytes| && Distinct(Window(bytes, r - 14, 14))
    ensures Distinct(Window(bytes, r - 4, 4))
  {
    var w := Window(bytes, r - 14, 14);
    var t := Window(bytes, r - 4, 4);
    assert t == w[10..];
    forall j, k | 0 <= j < k < 4
      ensures t[j] != t[k]
    {
      assert t[j] == w[10 + j] && t[k] == w[10 + k];
    }
  }

  /** A start-of-message marker ends with a start-of-packet marker, so the
      packet starts no later than the message. */
  lemma PacketBeforeMessage(bytes: seq<byte>)
    requires HasMarker(bytes, 14, 0)
    ensures HasMarker(bytes, 4, 0) && PartOne(bytes) <= PartTwo(bytes)
  {
    var r := PartTwo(bytes);
    DistinctCount(Window(bytes, r - 14, 14));
    DistinctTail(bytes, r);
    DistinctCount(Window(bytes, r - 4, 4));
    assert Marker(bytes, 4, r - 4);
    assert HasMarker(bytes, 4, 0);
  }
}
