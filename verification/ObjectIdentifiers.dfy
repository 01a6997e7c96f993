/** A reader of OBJECT IDENTIFIER contents (section 8.19 of ITU-T X.690): base-128 subidentifiers, the first one holding
    two arcs. */
module ObjectIdentifiers {
  import opened Bytes
  import opened Der

  /** The subidentifiers of s behind the unfinished one with value acc; first at its start. */
  function Subidentifiers(s: seq<byte>, acc: nat, first: bool): Option<seq<nat>> {
    if s == [] then if first then Some([]) else None
    else if first && s[0] == 0x80 then None
    else if s[0] >= 0x80 then Subidentifiers(s[1..], 128 * acc + (s[0] - 0x80), false)
    else
      var rest :- Subidentifiers(s[1..], 0, true);
      Some([128 * acc + s[0]] + rest)
  }

  function Arcs(octets: seq<byte>): Option<seq<nat>> {
    var ids :- Subidentifiers(octets, 0, true);
    if ids == [] then None
    else
      var top := if ids[0] < 40 then 0 else if ids[0] < 80 then 1 else 2;
      Some([top, ids[0] - 40 * top] + ids[1..])
  }

  predicate IsOid(t: Tlv, arcs: seq<nat>) { t.tag == 0x06 && Arcs(t.content) == Some(arcs) }

  /** Complete subidentifiers one after the other. */
  lemma {:induction false} Joined(a: seq<byte>, b: seq<byte>, acc: nat, first: bool, x: seq<nat>, y: seq<nat>)
    requires first ==> acc == 0
    requires Subidentifiers(a, acc, first) == Some(x) && Subidentifiers(b, 0, true) == Some(y)
    ensures Subidentifiers(a + b, acc, first) == Some(x + y)
  {
    if a == [] {
      assert a + b == b && x + y == y;
    } else {
      assert (a + b)[1..] == a[1..] + b;
      if a[0] >= 0x80 {
        Joined(a[1..], b, 128 * acc + (a[0] - 0x80), false, x, y);
      } else {
        Joined(a[1..], b, 0, true, x[1..], y);
        assert x + y == [x[0]] + (x[1..] + y);
      }
    }
  }

  lemma LastOctet(low: byte, acc: nat)
    requires low < 0x80
    ensures Subidentifiers([low], acc, false) == Some([128 * acc + low])
  {
    var s: seq<byte> := [low];
    assert s[1..] == [] && Subidentifiers(s[1..], 0, true) == Some([]);
    assert [128 * acc + low] + [] == [128 * acc + low];
  }

  lemma TwoOctets(high: byte, low: byte)
    requires high > 0x80 && low < 0x80
    ensures Subidentifiers([high, low], 0, true) == Some([128 * (high - 0x80) + low])
  {
    assert [high, low][1..] == [low] && [low][1..] == [];
    LastOctet(low, high - 0x80);
  }

  lemma ThreeOctets(high: byte, mid: byte, low: byte)
    requires high > 0x80 && mid >= 0x80 && low < 0x80
    ensures Subidentifiers([high, mid, low], 0, true) == Some([128 * (128 * (high - 0x80) + (mid - 0x80)) + low])
  {
    assert [high, mid, low][1..] == [mid, low] && [mid, low][1..] == [low] && [low][1..] == [];
    var acc := 128 * (high - 0x80) + (mid - 0x80);
    LastOctet(low, acc);
    assert Subidentifiers([mid, low], high - 0x80, false) == Some([128 * acc + low]);
  }

  /** Arcs below 128 take one octet each. */
  lemma {:induction false} SmallArcs(s: seq<byte>, arcs: seq<nat>)
    requires |arcs| == |s| && forall i :: 0 <= i < |s| ==> s[i] < 0x80 && arcs[i] == s[i]
    ensures Subidentifiers(s, 0, true) == Some(arcs)
  {
    if s != [] {
      SmallArcs(s[1..], arcs[1..]);
      assert arcs == [arcs[0]] + arcs[1..];
    }
  }

  /** One octet, one long arc, and octets below 128. */
  lemma WithLongArc(octets: seq<byte>, head: seq<byte>, long: seq<byte>, tail: seq<byte>, arc: nat, headArcs: seq<nat>, tailArcs: seq<nat>)
    requires octets == head + long + tail && Subidentifiers(long, 0, true) == Some([arc])
    requires Subidentifiers(head, 0, true) == Some(headArcs) && Subidentifiers(tail, 0, true) == Some(tailArcs)
    ensures Subidentifiers(octets, 0, true) == Some(headArcs + [arc] + tailArcs)
  {
    Joined(head, long, 0, true, headArcs, [arc]);
    Joined(head + long, tail, 0, true, headArcs + [arc], tailArcs);
  }
}
