/**
 * The `VectorTimestamp` class: a vector clock kept in a mutable map from node
 * id to counter. Each method that walks the key set is proved against the
 * clock-level definition in `VectorClocks`; the order the hash map yields
 * its keys in is left open (the loops pick any key not yet visited).
 */
module VectorTimestamps {
  import opened Wrappers
  import opened JavaLang
  import opened VectorClocks

  class VectorTimestamp {
    var nodeTimestamp: Clock

    /** One node per listed id (duplicates collapse), every counter 0. */
    constructor(nodeIds: seq<NodeId>)
      ensures nodeTimestamp == Zero(nodeIds)
      ensures forall id :: id in nodeTimestamp <==> id in nodeIds
      ensures VectorClocks.IsZero(nodeTimestamp)
    {
      var m: Clock := map[];
      var i := 0;
      while i < |nodeIds|
        invariant 0 <= i <= |nodeIds|
        invariant m == Zero(nodeIds[..i])
      {
        assert nodeIds[..i + 1] == nodeIds[..i] + [nodeIds[i]];
        m := m[nodeIds[i] := 0];
        i := i + 1;
      }
      assert nodeIds[..i] == nodeIds;
      nodeTimestamp := m;
    }

    function NodeIds(): (ids: set<NodeId>)
      reads this
      ensures forall id :: id in ids <==> id in nodeTimestamp
    {
      nodeTimestamp.Keys
    }

    /** Overwrites the counter of a node that is already present. */
    method UpdateNodeTimestamp(nodeId: NodeId, timestamp: Long)
      requires nodeId in nodeTimestamp
      modifies this
      ensures nodeTimestamp == old(nodeTimestamp)[nodeId := timestamp]
      ensures nodeTimestamp.Keys == old(nodeTimestamp).Keys
      ensures GetNodeTimestamp(nodeId) == timestamp
    {
      nodeTimestamp := nodeTimestamp[nodeId := timestamp];
    }

    /** Adds one (with `long` wrap-around) to a present node's counter and returns this object. */
    method IncreaseNodeTimestamp(nodeId: NodeId) returns (self: VectorTimestamp)
      requires nodeId in nodeTimestamp
      modifies this
      ensures self == this
      ensures nodeTimestamp == old(nodeTimestamp)[nodeId := IncrementLong(old(nodeTimestamp)[nodeId])]
      ensures nodeTimestamp.Keys == old(nodeTimestamp).Keys
      ensures old(nodeTimestamp)[nodeId] < MaxLong ==> GetNodeTimestamp(nodeId) == old(nodeTimestamp)[nodeId] + 1
    {
      var tt := nodeTimestamp[nodeId];
      nodeTimestamp := nodeTimestamp[nodeId := IncrementLong(tt)];
      self := this;
    }

    function GetNodeTimestamp(nodeId: NodeId): (t: Long)
      requires nodeId in nodeTimestamp
      reads this
      ensures t == nodeTimestamp[nodeId]
    {
      nodeTimestamp[nodeId]
    }

    /** Same number of nodes and the same node ids. */
    function IsComparableWith(other: VectorTimestamp): (b: bool)
      reads this, other
      ensures b <==> Comparable(nodeTimestamp, other.nodeTimestamp)
    {
      if |nodeTimestamp| != |other.nodeTimestamp| then false
      else nodeTimestamp.Keys == other.nodeTimestamp.Keys
    }

    method IsLessThan(other: VectorTimestamp) returns (b: bool)
      requires IsComparableWith(other)
      ensures b == LessThan(nodeTimestamp, other.nodeTimestamp)
    {
      var hasAtLeastOneLessTimestamp := false;
      var remaining := nodeTimestamp.Keys;
      while remaining != {}
        invariant remaining <= nodeTimestamp.Keys
        invariant forall id :: id in nodeTimestamp && id !in remaining ==>
                    nodeTimestamp[id] <= other.nodeTimestamp[id]
        invariant hasAtLeastOneLessTimestamp <==>
                    exists id :: id in nodeTimestamp && id !in remaining &&
                                 nodeTimestamp[id] < other.nodeTimestamp[id]
        decreases remaining
      {
        var nodeId :| nodeId in remaining;
        var mine := nodeTimestamp[nodeId];
        var theirs := other.nodeTimestamp[nodeId];
        if mine > theirs {
          return false;
        }
        if mine < theirs {
          hasAtLeastOneLessTimestamp := true;
        }
        remaining := remaining - {nodeId};
      }
      return hasAtLeastOneLessTimestamp;
    }

    method IsEqualTo(other: VectorTimestamp) returns (b: bool)
      requires IsComparableWith(other)
      ensures b == EqualTo(nodeTimestamp, other.nodeTimestamp)
    {
      var remaining := nodeTimestamp.Keys;
      while remaining != {}
        invariant remaining <= nodeTimestamp.Keys
        invariant forall id :: id in nodeTimestamp && id !in remaining ==>
                    nodeTimestamp[id] == other.nodeTimestamp[id]
        decreases remaining
      {
        var nodeId :| nodeId in remaining;
        if nodeTimestamp[nodeId] != other.nodeTimestamp[nodeId] {
          return false;
        }
        remaining := remaining - {nodeId};
      }
      return true;
    }

    /** `isLessThan(other) || isEqualTo(other)`, evaluated left to right. */
    method IsLessThanOrEqualTo(other: VectorTimestamp) returns (b: bool)
      requires IsComparableWith(other)
      ensures b == LessThanOrEqualTo(nodeTimestamp, other.nodeTimestamp)
    {
      b := IsLessThan(other);
      if !b {
        b := IsEqualTo(other);
      }
    }

    method IsGreaterThan(other: VectorTimestamp) returns (b: bool)
      requires IsComparableWith(other)
      ensures b == GreaterThan(nodeTimestamp, other.nodeTimestamp)
    {
      var hasAtLeastOneGreaterTimestamp := false;
      var remaining := nodeTimestamp.Keys;
      while remaining != {}
        invariant remaining <= nodeTimestamp.Keys
        invariant forall id :: id in nodeTimestamp && id !in remaining ==>
                    nodeTimestamp[id] >= other.nodeTimestamp[id]
        invariant hasAtLeastOneGreaterTimestamp <==>
                    exists id :: id in nodeTimestamp && id !in remaining &&
                                 nodeTimestamp[id] > other.nodeTimestamp[id]
        decreases remaining
      {
        var nodeId :| nodeId in remaining;
        var mine := nodeTimestamp[nodeId];
        var theirs := other.nodeTimestamp[nodeId];
        if mine < theirs {
          return false;
        }
        if mine > theirs {
          hasAtLeastOneGreaterTimestamp := true;
        }
        remaining := remaining - {nodeId};
      }
      return hasAtLeastOneGreaterTimestamp;
    }

    method IsZero() returns (b: bool)
      ensures b == VectorClocks.IsZero(nodeTimestamp)
    {
      var remaining := nodeTimestamp.Keys;
      while remaining != {}
        invariant remaining <= nodeTimestamp.Keys
        invariant forall id :: id in nodeTimestamp && id !in remaining ==> nodeTimestamp[id] == 0
        decreases remaining
      {
        var nodeId :| nodeId in remaining;
        if nodeTimestamp[nodeId] != 0 {
          return false;
        }
        remaining := remaining - {nodeId};
      }
      return true;
    }

    /**
     * The text form, pairs in the order the map happens to yield its keys;
     * that order is returned alongside as a ghost value.
     */
    method ToString() returns (s: string, ghost order: seq<NodeId>)
      ensures IsKeyOrder(order, nodeTimestamp.Keys)
      ensures s == Encode(nodeTimestamp, order)
      ensures StartsWith(s, Prefix) && s[|s| - 1] == '/'
      ensures |nodeTimestamp| > 0 && (forall id :: id in nodeTimestamp ==> '.' !in id && ':' !in id) ==>
                Decode(s) == Success(nodeTimestamp)
    {
      var m := nodeTimestamp;
      var sb := Prefix;
      var remainingNodes := |m|;
      var unvisited := m.Keys;
      order := [];
      while unvisited != {}
        invariant unvisited <= m.Keys
        invariant IsKeyOrder(order, m.Keys - unvisited)
        invariant remainingNodes == if unvisited == {} && order != [] then 1 else |unvisited|
        invariant sb == Prefix + Join(PairTexts(m, order), '.') +
                        (if order != [] && unvisited != {} then "." else "")
        decreases unvisited
      {
        var nodeId :| nodeId in unvisited;
        ghost var before := sb;
        sb := sb + nodeId;
        sb := sb + ":";
        sb := sb + LongToString(m[nodeId]);
        AppendPair(before, nodeId, LongToString(m[nodeId]));
        EncodeStep(m, order, m.Keys - unvisited, nodeId, before);
        assert (m.Keys - unvisited) + {nodeId} == m.Keys - (unvisited - {nodeId});
        assert |unvisited - {nodeId}| == |unvisited| - 1;
        order := order + [nodeId];
        unvisited := unvisited - {nodeId};
        if remainingNodes > 1 {
          assert unvisited != {};
          remainingNodes := remainingNodes - 1;
          sb := sb + ".";
        } else {
          assert unvisited == {};
          AppendNothing(sb);
        }
      }
      assert m.Keys - unvisited == m.Keys;
      s := sb + "/";
      EncodeFinish(m, order, sb);
      EncodingReadsBack(m, order);
    }

    /**
     * Parses every pair first, then builds a timestamp over the parsed ids
     * and sets each counter in turn; the first bad pair decides the error.
     */
    /**
     * The first loop of `createFromString`: each pair is split on ':' into
     * an id and a counter, and the first pair that does not split in two,
     * or whose counter is not a long, ends the decoding with its error.
     */
    static method ParsePairList(pairs: seq<string>) returns (r: Result<(seq<NodeId>, seq<Long>), DecodeError>)
      ensures r == ParsePairs(pairs)
    {
      var nodeIds: seq<NodeId> := [];
      var nodeTimestamps: seq<Long> := [];
      var i := 0;
      while i < |pairs|
        invariant 0 <= i <= |pairs|
        invariant ParsePairs(pairs[..i]) == Success((nodeIds, nodeTimestamps))
      {
        var temp := Split(pairs[i], ':');
        if |temp| != 2 {
          ParsePairsStepFailure(pairs, i, nodeIds, nodeTimestamps, MalformedPair(pairs[i]));
          return Failure(MalformedPair(pairs[i]));
        }
        var counter := ParseLong(temp[1]);
        if counter.None? {
          ParsePairsStepFailure(pairs, i, nodeIds, nodeTimestamps, MalformedCounter(temp[1]));
          return Failure(MalformedCounter(temp[1]));
        }
        ParsePairsStepSuccess(pairs, i, nodeIds, nodeTimestamps, temp[0], counter.value);
        nodeIds := nodeIds + [temp[0]];
        nodeTimestamps := nodeTimestamps + [counter.value];
        i := i + 1;
      }
      assert pairs[..i] == pairs;
      return Success((nodeIds, nodeTimestamps));
    }

    static method CreateFromString(encodedTimestamp: string) returns (r: Result<VectorTimestamp, DecodeError>)
      ensures Decode(encodedTimestamp).Failure? ==> r == Failure(Decode(encodedTimestamp).error)
      ensures Decode(encodedTimestamp).Success? ==>
                r.Success? && fresh(r.value) && r.value.nodeTimestamp == Decode(encodedTimestamp).value
    {
      if !StartsWith(encodedTimestamp, Prefix) {
        return Failure(MissingPrefix);
      }
      if |encodedTimestamp| - 1 < |Prefix| {
        return Failure(TruncatedText);
      }
      var rawTimestamp := encodedTimestamp[|Prefix|..|encodedTimestamp| - 1];
      var pairs := Split(rawTimestamp, '.');
      DecodeParsed(encodedTimestamp, pairs);
      var parsed := ParsePairList(pairs);
      if parsed.Failure? {
        return Failure(parsed.error);
      }
      var (nodeIds, nodeTimestamps) := parsed.value;

      var timestamp := new VectorTimestamp(nodeIds);
      var j := 0;
      while j < |nodeTimestamps|
        invariant 0 <= j <= |nodeTimestamps|
        invariant timestamp.nodeTimestamp == ApplyUpdates(Zero(nodeIds), nodeIds[..j], nodeTimestamps[..j])
        modifies timestamp
      {
        ApplyUpdatesStep(Zero(nodeIds), nodeIds, nodeTimestamps, j);
        timestamp.UpdateNodeTimestamp(nodeIds[j], nodeTimestamps[j]);
        j := j + 1;
      }
      assert nodeIds[..j] == nodeIds && nodeTimestamps[..j] == nodeTimestamps;
      return Success(timestamp);
    }
  }
}
