/** Reading the attestation subnet out of a gossip topic such as
    `/eth2/<fork_digest>/beacon_attestation_<subnet_id>/ssz_snappy`. */
module SubnetTopic {
  import opened Wrappers
  import opened JavaNumbers
  import opened JavaStrings
  import Decimal

  const Marker: string := "beacon_attestation_"

  /** The encoding segment that ends gossip topics. */
  const Encoding: string := "/ssz_snappy"

  /** The subnet id of a topic: the text after the first `beacon_attestation_`, up to the
      next `/` or the end, read as a `long`. A topic without the marker, or whose text
      there is not a `long` (empty, non-numeric, out of range), yields 0. */
  function ExtractSubnetId(topic: string): (r: Long)
    ensures IndexOf(topic, Marker).None? ==> r == 0
    ensures r != 0 ==> exists i :: OccursAt(topic, Marker, i)
  {
    match IndexOf(topic, Marker)
    case None => 0
    case Some(idx) =>
      var start := idx + |Marker|;
      var end := match IndexOfChar(topic, '/', start)
        case Some(slash) => slash
        case None => |topic|;
      Decimal.ParseLong(topic[start..end]).GetOr(0)
  }

  /** The marker placed right after `prefix` is its first occurrence: no occurrence starts
      inside `prefix`, including one that runs on into the placed marker. */
  predicate NoEarlierMarker(prefix: string) {
    forall i | 0 <= i < |prefix| :: !OccursAt(prefix + Marker, Marker, i)
  }

  /** Whatever follows the placed marker cannot create an earlier occurrence: an occurrence
      starting inside `prefix` ends within `prefix + Marker`. */
  lemma FirstMarkerAt(prefix: string, rest: string)
    requires NoEarlierMarker(prefix)
    ensures IndexOf(prefix + Marker + rest, Marker) == Some(|prefix|)
  {
    var head := prefix + Marker;
    var t := head + rest;
    assert t[|prefix|..|prefix| + |Marker|] == Marker;
    assert OccursAt(t, Marker, |prefix|);
    forall i | 0 <= i < |prefix|
      ensures !OccursAt(t, Marker, i)
    {
      assert i + |Marker| <= |head|;
      assert t[i..i + |Marker|] == head[i..i + |Marker|];
      assert !OccursAt(head, Marker, i);
    }
  }

  /** Text that cannot hide a marker occurrence: no underscore, and, when not empty, a
      final `/`, as in the `/eth2/<fork_digest>/` prefix of gossip topics. A marker starting
      inside such text could neither end inside it (it has an underscore) nor run past its
      final `/` (the marker has no slash). */
  predicate MarkerFreePrefix(prefix: string) {
    && (forall i | 0 <= i < |prefix| :: prefix[i] != '_')
    && (|prefix| > 0 ==> prefix[|prefix| - 1] == '/')
  }

  /** Gossip-topic prefixes meet the first-occurrence condition. */
  lemma FirstMarkerAfterPrefix(prefix: string)
    requires MarkerFreePrefix(prefix)
    ensures NoEarlierMarker(prefix)
  {
    var t := prefix + Marker;
    forall i | 0 <= i < |prefix|
      ensures !OccursAt(t, Marker, i)
    {
      if i + |Marker| <= |t| {
        var window := t[i..i + |Marker|];
        if i + 6 < |prefix| {
          assert window[6] == prefix[i + 6] != '_';
          assert window[6] != Marker[6];
        } else {
          var k := |prefix| - 1 - i;
          assert window[k] == prefix[|prefix| - 1] == '/';
          assert Marker[k] != '/';
        }
      }
    }
  }

  /** For a topic laid out as prefix, marker, field, tail — where the field has no `/` and
      the tail is empty or starts a new path segment — the subnet id is the field read as
      a `long`, or 0 when it is not one. */
  lemma SubnetIdOfField(prefix: string, field: string, tail: string)
    requires NoEarlierMarker(prefix)
    requires forall i | 0 <= i < |field| :: field[i] != '/'
    requires |tail| == 0 || tail[0] == '/'
    ensures ExtractSubnetId(prefix + Marker + field + tail) == Decimal.ParseLong(field).GetOr(0)
  {
    var t := prefix + Marker + field + tail;
    assert t == prefix + Marker + (field + tail);
    FirstMarkerAt(prefix, field + tail);
    var start := |prefix| + |Marker|;
    var end := start + |field|;
    forall i | start <= i < end
      ensures t[i] != '/'
    {
      assert t[i] == field[i - start];
    }
    if |tail| == 0 {
      assert IndexOfChar(t, '/', start) == None;
    } else {
      assert t[end] == tail[0];
      assert IndexOfChar(t, '/', start) == Some(end);
    }
    assert t[start..end] == field;
  }

  /** A topic carrying a subnet id written the way `Long.toString` writes it yields that id. */
  lemma SubnetIdOfWellFormedTopic(prefix: string, subnet: Long, tail: string)
    requires NoEarlierMarker(prefix)
    requires |tail| == 0 || tail[0] == '/'
    ensures ExtractSubnetId(prefix + Marker + Decimal.Format(subnet) + tail) == subnet
  {
    SubnetIdOfField(prefix, Decimal.Format(subnet), tail);
    Decimal.ParseFormatRoundTrip(subnet);
  }

  /** An underscore in the text before the marker does not hide it. */
  lemma SubnetIdAfterUnderscorePrefix()
    ensures ExtractSubnetId("/a_b/" + Marker + "3") == 3
  {
    var prefix := "/a_b/";
    assert NoEarlierMarker(prefix) by {
      var t := prefix + Marker;
      forall i | 0 <= i < |prefix|
        ensures !OccursAt(t, Marker, i)
      {
        var window := t[i..i + |Marker|];
        if i == 3 {
          assert window[1] == '/' != Marker[1];
        } else {
          assert window[0] == prefix[i] != Marker[0];
        }
      }
    }
    SubnetIdOfWellFormedTopic(prefix, 3, "");
    assert Decimal.Format(3) + "" == "3";
    assert prefix + Marker + Decimal.Format(3) + "" == "/a_b/" + Marker + "3";
  }

  /** Text glued to the front of the marker does not hide it either. */
  lemma SubnetIdAfterGluedPrefix()
    ensures ExtractSubnetId("x" + Marker + "5" + Encoding) == 5
  {
    var prefix := "x";
    assert NoEarlierMarker(prefix) by {
      var t := prefix + Marker;
      assert t[0..|Marker|][0] == 'x' != Marker[0];
    }
    SubnetIdOfWellFormedTopic(prefix, 5, Encoding);
    assert Decimal.Format(5) == "5";
  }

  /** A subnet id beyond `Long.MAX_VALUE` is a parse failure and reads as 0. */
  lemma SubnetIdOverflowIsZero(prefix: string, n: nat, tail: string)
    requires NoEarlierMarker(prefix)
    requires |tail| == 0 || tail[0] == '/'
    requires n > LongMax
    ensures ExtractSubnetId(prefix + Marker + Decimal.FormatNat(n) + tail) == 0
  {
    SubnetIdOfField(prefix, Decimal.FormatNat(n), tail);
    Decimal.ParseRejectsOverflow(n);
  }

  /** An empty subnet field reads as 0. */
  lemma SubnetIdEmptyFieldIsZero(prefix: string, tail: string)
    requires NoEarlierMarker(prefix)
    requires |tail| == 0 || tail[0] == '/'
    ensures ExtractSubnetId(prefix + Marker + tail) == 0
  {
    SubnetIdOfField(prefix, "", tail);
    assert prefix + Marker + "" + tail == prefix + Marker + tail;
  }

  /** A topic in which the marker never occurs yields 0. */
  lemma SubnetIdWithoutMarker(topic: string)
    requires forall i :: !OccursAt(topic, Marker, i)
    ensures ExtractSubnetId(topic) == 0
  {
  }
}
