/**
 * The value a `VectorTimestamp` denotes: a map from node id to a 64-bit
 * counter. This module holds what the class's loops are proved against:
 * the partial order over clocks, the text encoding written by `toString`
 * and the decoding done by `createFromString`, with the laws they obey.
 */
module VectorClocks {
  import opened Wrappers
  import opened JavaLang

  type NodeId = string
  type Clock = map<NodeId, Long>

  /** The clock the constructor builds: every listed id, counter 0. */
  function Zero(ids: seq<NodeId>): (c: Clock)
    ensures forall id :: id in c <==> id in ids
  {
    map id | id in ids :: 0
  }

  // -----------------------------------------------------------------------
  // Partial order
  // -----------------------------------------------------------------------

  /** Same node-id set (`isComparableWith`). */
  predicate Comparable(a: Clock, b: Clock)
  {
    a.Keys == b.Keys
  }

  /** Every counter of `a` is at most the matching counter of `b`. */
  predicate AllAtMost(a: Clock, b: Clock)
  {
    forall id :: id in a ==> id in b && a[id] <= b[id]
  }

  /** Some counter of `a` is strictly below the matching counter of `b`. */
  predicate SomeBelow(a: Clock, b: Clock)
  {
    exists id :: id in a && id in b && a[id] < b[id]
  }

  /** `isLessThan`: pointwise at most, and strictly below somewhere. */
  predicate LessThan(a: Clock, b: Clock)
  {
    AllAtMost(a, b) && SomeBelow(a, b)
  }

  /** `isGreaterThan`: pointwise at least, and strictly above somewhere. */
  predicate GreaterThan(a: Clock, b: Clock)
  {
    (forall id :: id in a ==> id in b && a[id] >= b[id]) &&
    (exists id :: id in a && id in b && a[id] > b[id])
  }

  /** `isEqualTo`: every counter of `a` matches the one in `b`. */
  predicate EqualTo(a: Clock, b: Clock)
  {
    forall id :: id in a ==> id in b && a[id] == b[id]
  }

  /** `isLessThanOrEqualTo`, as the Java code composes it. */
  predicate LessThanOrEqualTo(a: Clock, b: Clock)
  {
    LessThan(a, b) || EqualTo(a, b)
  }

  /** `isZero`: every counter is 0. */
  predicate IsZero(a: Clock)
  {
    forall id :: id in a ==> a[id] == 0
  }

  lemma ComparableIsEquivalence(a: Clock, b: Clock, c: Clock)
    ensures Comparable(a, a)
    ensures Comparable(a, b) <==> Comparable(b, a)
    ensures Comparable(a, b) && Comparable(b, c) ==> Comparable(a, c)
  {
  }

  lemma ZeroIsZero(ids: seq<NodeId>)
    ensures IsZero(Zero(ids))
    ensures forall id :: id in Zero(ids) <==> id in ids
  {
  }

  lemma LessThanIsIrreflexive(a: Clock)
    ensures !LessThan(a, a)
  {
  }

  lemma LessThanIsAsymmetric(a: Clock, b: Clock)
    requires LessThan(a, b)
    ensures !LessThan(b, a)
  {
    var id :| id in a && id in b && a[id] < b[id];
  }

  lemma LessThanIsTransitive(a: Clock, b: Clock, c: Clock)
    requires LessThan(a, b) && LessThan(b, c)
    ensures LessThan(a, c)
  {
    var id :| id in a && id in b && a[id] < b[id];
    assert id in c && a[id] < c[id];
  }

  /** On comparable clocks `a.isGreaterThan(b)` is `b.isLessThan(a)`. */
  lemma GreaterThanIsConverse(a: Clock, b: Clock)
    requires Comparable(a, b)
    ensures GreaterThan(a, b) <==> LessThan(b, a)
  {
  }

  /** On comparable clocks `isEqualTo` is equality of the clocks. */
  lemma EqualToIsEquality(a: Clock, b: Clock)
    requires Comparable(a, b)
    ensures EqualTo(a, b) <==> a == b
  {
    if EqualTo(a, b) {
      assert forall id :: id in a ==> a[id] == b[id];
    }
  }

  /** On comparable clocks `isLessThanOrEqualTo` is "pointwise at most". */
  lemma LessThanOrEqualToIsPointwise(a: Clock, b: Clock)
    requires Comparable(a, b)
    ensures LessThanOrEqualTo(a, b) <==> AllAtMost(a, b)
  {
    if AllAtMost(a, b) && !SomeBelow(a, b) {
      assert forall id :: id in a ==> a[id] == b[id];
    }
  }

  /** `isLessThanOrEqualTo` is a partial order on clocks over one id set. */
  lemma LessThanOrEqualToIsPartialOrder(a: Clock, b: Clock, c: Clock)
    requires Comparable(a, b) && Comparable(b, c)
    ensures LessThanOrEqualTo(a, a)
    ensures LessThanOrEqualTo(a, b) && LessThanOrEqualTo(b, a) ==> a == b
    ensures LessThanOrEqualTo(a, b) && LessThanOrEqualTo(b, c) ==> LessThanOrEqualTo(a, c)
  {
    LessThanOrEqualToIsPointwise(a, a);
    LessThanOrEqualToIsPointwise(a, b);
    LessThanOrEqualToIsPointwise(b, a);
    LessThanOrEqualToIsPointwise(b, c);
    LessThanOrEqualToIsPointwise(a, c);
    if AllAtMost(a, b) && AllAtMost(b, a) {
      assert forall id :: id in a ==> a[id] == b[id];
    }
  }

  /** Two comparable clocks may be concurrent: neither is at most the other. */
  lemma ConcurrentClocksExist()
    ensures var a := map["AR0" := 1, "AR1" := 0];
            var b := map["AR0" := 0, "AR1" := 1];
            Comparable(a, b) && !LessThanOrEqualTo(a, b) && !LessThanOrEqualTo(b, a)
  {
    var a := map["AR0" := 1, "AR1" := 0];
    var b := map["AR0" := 0, "AR1" := 1];
    assert a["AR0"] > b["AR0"];
    assert b["AR1"] > a["AR1"];
  }

  /** Increasing one counter (below Long.MAX_VALUE) yields a strictly later clock. */
  lemma IncrementIsLater(a: Clock, id: NodeId)
    requires id in a && a[id] < MaxLong
    ensures LessThan(a, a[id := IncrementLong(a[id])])
    ensures Comparable(a, a[id := IncrementLong(a[id])])
  {
    var b := a[id := IncrementLong(a[id])];
    assert a[id] < b[id];
  }

  // -----------------------------------------------------------------------
  // Text encoding: VectorTimestamp/<id>:<n>.<id>:<n>/
  // -----------------------------------------------------------------------

  const Prefix: string := "VectorTimestamp/"

  /** `order` lists every id of `keys` exactly once: one possible hash-map iteration order. */
  predicate IsKeyOrder(order: seq<NodeId>, keys: set<NodeId>)
  {
    (forall i, j :: 0 <= i < j < |order| ==> order[i] != order[j]) &&
    (forall id :: id in keys ==> id in order) &&
    (forall i :: 0 <= i < |order| ==> order[i] in keys)
  }

  function PairText(id: NodeId, counter: Long): string
  {
    id + ":" + LongToString(counter)
  }

  function PairTexts(c: Clock, order: seq<NodeId>): (texts: seq<string>)
    requires forall id :: id in order ==> id in c
    ensures |texts| == |order|
    ensures forall i :: 0 <= i < |order| ==> texts[i] == PairText(order[i], c[order[i]])
  {
    if |order| == 0 then []
    else PairTexts(c, order[..|order| - 1]) + [PairText(order[|order| - 1], c[order[|order| - 1]])]
  }

  /** The counters of `c` listed in `order`. */
  function Counters(c: Clock, order: seq<NodeId>): (counters: seq<Long>)
    requires forall id :: id in order ==> id in c
    ensures |counters| == |order|
    ensures forall i :: 0 <= i < |order| ==> counters[i] == c[order[i]]
  {
    if |order| == 0 then []
    else Counters(c, order[..|order| - 1]) + [c[order[|order| - 1]]]
  }

  /** What `toString` writes when the map yields its keys in `order`. */
  function Encode(c: Clock, order: seq<NodeId>): (s: string)
    requires IsKeyOrder(order, c.Keys)
    ensures StartsWith(s, Prefix) && |s| > |Prefix| && s[|s| - 1] == '/'
  {
    var body := Join(PairTexts(c, order), '.');
    Framed(Prefix, body, "/");
    Prefix + body + "/"
  }

  /** Why `createFromString` gives up (an assertion or an exception in the Java code). */
  datatype DecodeError =
    | MissingPrefix                  // assert startsWith(validPrefix)
    | TruncatedText                  // substring end before its start
    | MalformedPair(pair: string)    // assert temp.length == 2
    | MalformedCounter(text: string) // Long.valueOf throws

  /** One `id:counter` pair, split on ':' the way Java does. */
  function ParsePair(pair: string): Result<(NodeId, Long), DecodeError>
  {
    var temp := Split(pair, ':');
    if |temp| != 2 then Failure(MalformedPair(pair))
    else
      match ParseLong(temp[1])
      case None => Failure(MalformedCounter(temp[1]))
      case Some(v) => Success((temp[0], v))
  }

  /** The pairs in order; the first bad one decides the error. */
  function ParsePairs(pairs: seq<string>): (r: Result<(seq<NodeId>, seq<Long>), DecodeError>)
    ensures r.Success? ==> |r.value.0| == |pairs| && |r.value.1| == |pairs|
    ensures r.Failure? ==> r.error.MalformedPair? || r.error.MalformedCounter?
  {
    if |pairs| == 0 then Success(([], []))
    else
      match ParsePairs(pairs[..|pairs| - 1])
      case Failure(e) => Failure(e)
      case Success((ids, counters)) =>
        match ParsePair(pairs[|pairs| - 1])
        case Failure(e) => Failure(e)
        case Success((id, v)) => Success((ids + [id], counters + [v]))
  }

  /** `updateNodeTimestamp(ids[i], counters[i])` for i = 0, 1, ... in turn. */
  function ApplyUpdates(c: Clock, ids: seq<NodeId>, counters: seq<Long>): (r: Clock)
    requires |ids| == |counters|
    ensures forall id :: id in r <==> id in c || id in ids
  {
    if |ids| == 0 then c
    else
      ApplyUpdates(c, ids[..|ids| - 1], counters[..|ids| - 1])[ids[|ids| - 1] := counters[|ids| - 1]]
  }

  /** `createFromString`: prefix, drop the last character, split, parse, build. */
  function Decode(s: string): Result<Clock, DecodeError>
  {
    if !StartsWith(s, Prefix) then Failure(MissingPrefix)
    else if |s| - 1 < |Prefix| then Failure(TruncatedText)
    else
      match ParsePairs(Split(s[|Prefix|..|s| - 1], '.'))
      case Failure(e) => Failure(e)
      case Success((ids, counters)) => Success(ApplyUpdates(Zero(ids), ids, counters))
  }

  /** Past the prefix and length checks, decoding is parsing the pairs. */
  lemma DecodeParsed(s: string, pairs: seq<string>)
    requires StartsWith(s, Prefix) && |s| - 1 >= |Prefix|
    requires pairs == Split(s[|Prefix|..|s| - 1], '.')
    ensures ParsePairs(pairs).Failure? ==> Decode(s) == Failure(ParsePairs(pairs).error)
    ensures ParsePairs(pairs).Success? ==>
              var (ids, counters) := ParsePairs(pairs).value;
              Decode(s) == Success(ApplyUpdates(Zero(ids), ids, counters))
  {
  }

  // -----------------------------------------------------------------------
  // Laws of the encoding
  // -----------------------------------------------------------------------

  lemma ParsePairText(id: NodeId, v: Long)
    requires ':' !in id
    ensures ParsePair(PairText(id, v)) == Success((id, v))
  {
    var num := LongToString(v);
    assert PairText(id, v) == Join([id, num], ':');
    SplitJoin([id, num], ':');
    ParseLongToString(v);
  }

  /** The pairs of an encoding parse back to the ids in order and their counters. */
  lemma {:induction false} ParsePairTexts(c: Clock, order: seq<NodeId>)
    requires forall id :: id in order ==> id in c && ':' !in id
    ensures ParsePairs(PairTexts(c, order)) == Success((order, Counters(c, order)))
    decreases |order|
  {
    if |order| > 0 {
      ParsePairTexts(c, order[..|order| - 1]);
      ParsePairTextsStep(c, order);
    }
  }

  lemma ParsePairTextsStep(c: Clock, order: seq<NodeId>)
    requires |order| > 0
    requires forall id :: id in order ==> id in c && ':' !in id
    requires var init := order[..|order| - 1];
             ParsePairs(PairTexts(c, init)) == Success((init, Counters(c, init)))
    ensures ParsePairs(PairTexts(c, order)) == Success((order, Counters(c, order)))
  {
    var init := order[..|order| - 1];
    var last := order[|order| - 1];
    assert last in c && ':' !in last by {
      assert last in order;
    }
    ParsePairText(last, c[last]);
    ParsePairsAppend(PairTexts(c, init), PairText(last, c[last]), init, Counters(c, init), last, c[last]);
    SnocOfLast(order);
  }

  lemma SnocOfLast<T>(s: seq<T>)
    requires |s| > 0
    ensures s[..|s| - 1] + [s[|s| - 1]] == s
  {
  }

  lemma ParsePairsAppend(pairs: seq<string>, pair: string, ids: seq<NodeId>, counters: seq<Long>,
                         id: NodeId, v: Long)
    requires ParsePairs(pairs) == Success((ids, counters))
    requires ParsePair(pair) == Success((id, v))
    ensures ParsePairs(pairs + [pair]) == Success((ids + [id], counters + [v]))
  {
    ParsePairsSnoc(pairs, pair);
  }

  /** One more pair: parsed after all the earlier ones. */
  lemma ParsePairsSnoc(pairs: seq<string>, pair: string)
    ensures ParsePairs(pairs + [pair]) ==
            match ParsePairs(pairs)
            case Failure(e) => Failure(e)
            case Success((ids, counters)) =>
              match ParsePair(pair)
              case Failure(e) => Failure(e)
              case Success((id, v)) => Success((ids + [id], counters + [v]))
  {
    assert (pairs + [pair])[..|pairs|] == pairs;
  }

  /** `ParsePairsSnoc` for the first `i + 1` pairs of a list. */
  lemma ParsePairsPrefix(pairs: seq<string>, i: nat)
    requires i < |pairs|
    ensures ParsePairs(pairs[..i + 1]) ==
            match ParsePairs(pairs[..i])
            case Failure(e) => Failure(e)
            case Success((ids, counters)) =>
              match ParsePair(pairs[i])
              case Failure(e) => Failure(e)
              case Success((id, v)) => Success((ids + [id], counters + [v]))
  {
    ParsePairsSnoc(pairs[..i], pairs[i]);
    PrefixSnoc(pairs, i);
  }

  lemma PrefixSnoc<T>(s: seq<T>, i: nat)
    requires i < |s|
    ensures s[..i] + [s[i]] == s[..i + 1]
  {
  }

  /** Applying updates whose ids are all distinct sets each listed id to its counter. */
  lemma {:induction false} ApplyDistinctUpdates(c: Clock, ids: seq<NodeId>, counters: seq<Long>)
    requires |ids| == |counters|
    requires forall i, j :: 0 <= i < j < |ids| ==> ids[i] != ids[j]
    ensures forall i :: 0 <= i < |ids| ==> ApplyUpdates(c, ids, counters)[ids[i]] == counters[i]
    ensures forall id :: id in c && id !in ids ==> ApplyUpdates(c, ids, counters)[id] == c[id]
    decreases |ids|
  {
    if |ids| > 0 {
      var n := |ids| - 1;
      var before := ApplyUpdates(c, ids[..n], counters[..n]);
      var after := ApplyUpdates(c, ids, counters);
      assert after == before[ids[n] := counters[n]];
      ApplyDistinctUpdates(c, ids[..n], counters[..n]);
      forall i | 0 <= i < n
        ensures after[ids[i]] == counters[i]
      {
        assert ids[..n][i] == ids[i] && counters[..n][i] == counters[i];
        assert ids[i] != ids[n];
      }
      forall id | id in c && id !in ids
        ensures after[id] == c[id]
      {
        assert id !in ids[..n];
      }
    }
  }

  /** One more key in the order: one more pair text at the end. */
  lemma PairTextsSnoc(c: Clock, order: seq<NodeId>, id: NodeId)
    requires id in c
    requires forall k :: k in order ==> k in c
    ensures PairTexts(c, order + [id]) == PairTexts(c, order) + [PairText(id, c[id])]
  {
    assert (order + [id])[..|order|] == order;
  }

  /** A key order over `keys` extended by a new key is one over `keys + {id}`. */
  lemma KeyOrderSnoc(order: seq<NodeId>, keys: set<NodeId>, id: NodeId)
    requires IsKeyOrder(order, keys) && id !in keys
    ensures IsKeyOrder(order + [id], keys + {id})
  {
    var o := order + [id];
    forall k | k in keys + {id}
      ensures k in o
    {
      if k != id {
        assert k in order;
        var i :| 0 <= i < |order| && order[i] == k;
        assert o[i] == k;
      } else {
        assert o[|order|] == id;
      }
    }
  }

  /**
   * One step of `toString`: text holding the pairs of `order` (and a '.'
   * after them when nodes remain) followed by the next node's pair is the
   * joined pairs of the longer order.
   */
  lemma EncodeStep(c: Clock, order: seq<NodeId>, visited: set<NodeId>, id: NodeId, sb: string)
    requires IsKeyOrder(order, visited) && visited <= c.Keys
    requires id in c && id !in visited
    requires sb == Prefix + Join(PairTexts(c, order), '.') + (if order != [] then "." else "")
    ensures IsKeyOrder(order + [id], visited + {id})
    ensures sb + PairText(id, c[id]) == Prefix + Join(PairTexts(c, order + [id]), '.')
  {
    var texts := PairTexts(c, order);
    var text := PairText(id, c[id]);
    PairTextsSnoc(c, order, id);
    JoinSnoc(texts, text, '.');
    KeyOrderSnoc(order, visited, id);
    if order == [] {
      assert texts == [];
      AppendAfterEmpty(Prefix, text);
    } else {
      AppendAfterSeparator(Prefix, Join(texts, '.'), '.', text);
    }
  }

  /** A regrouping of concatenations, kept as a lemma of its own so that callers need not re-derive it inline (a proof-performance aid). */
  lemma AppendAfterEmpty(p: string, t: string)
    ensures p + "" + "" + t == p + t
  {
  }

  /** A regrouping of concatenations, kept as a lemma of its own so that callers need not re-derive it inline (a proof-performance aid). */
  lemma AppendAfterSeparator(p: string, j: string, sep: char, t: string)
    ensures p + j + [sep] + t == p + (j + [sep] + t)
  {
  }

  /** One step of building from parsed pairs: the next update. */
  lemma ApplyUpdatesStep(c: Clock, ids: seq<NodeId>, counters: seq<Long>, j: nat)
    requires |ids| == |counters| && j < |ids|
    ensures ids[j] in ApplyUpdates(c, ids[..j + 1], counters[..j + 1])
    ensures ApplyUpdates(c, ids[..j + 1], counters[..j + 1]) ==
            ApplyUpdates(c, ids[..j], counters[..j])[ids[j] := counters[j]]
  {
    assert ids[..j + 1][..j] == ids[..j];
    assert counters[..j + 1][..j] == counters[..j];
  }

  /** A bad pair after a good prefix: the whole list fails with that pair's error. */
  lemma ParsePairsStepFailure(pairs: seq<string>, i: nat, ids: seq<NodeId>, counters: seq<Long>, e: DecodeError)
    requires i < |pairs| && ParsePairs(pairs[..i]) == Success((ids, counters))
    requires ParsePair(pairs[i]) == Failure(e)
    ensures ParsePairs(pairs) == Failure(e)
  {
    ParsePairsPrefix(pairs, i);
    ParsePairsFailurePersists(pairs, i + 1, e);
  }

  /** A good pair after a good prefix: its id and counter are appended. */
  lemma ParsePairsStepSuccess(pairs: seq<string>, i: nat, ids: seq<NodeId>, counters: seq<Long>, id: NodeId, v: Long)
    requires i < |pairs| && ParsePairs(pairs[..i]) == Success((ids, counters))
    requires ParsePair(pairs[i]) == Success((id, v))
    ensures ParsePairs(pairs[..i + 1]) == Success((ids + [id], counters + [v]))
  {
    ParsePairsPrefix(pairs, i);
  }

  /** Once a prefix of the pairs fails to parse, the whole list fails the same way. */
  lemma {:induction false} ParsePairsFailurePersists(pairs: seq<string>, n: nat, e: DecodeError)
    requires n <= |pairs|
    requires ParsePairs(pairs[..n]) == Failure(e)
    ensures ParsePairs(pairs) == Failure(e)
    decreases |pairs| - n
  {
    if n < |pairs| {
      ParsePairsPrefix(pairs, n);
      ParsePairsFailurePersists(pairs, n + 1, e);
    } else {
      assert pairs[..n] == pairs;
    }
  }

  /** The text between the prefix and the final '/' of an encoding is the joined pairs. */
  lemma EncodeLayout(c: Clock, order: seq<NodeId>)
    requires IsKeyOrder(order, c.Keys)
    ensures var s := Encode(c, order);
            StartsWith(s, Prefix) && |s| - 1 >= |Prefix| &&
            s[|Prefix|..|s| - 1] == Join(PairTexts(c, order), '.')
  {
    Framed(Prefix, Join(PairTexts(c, order), '.'), "/");
  }

  lemma Framed(p: string, m: string, t: string)
    requires |t| == 1
    ensures var s := p + m + t; s[..|p|] == p && s[|p|..|s| - 1] == m
  {
  }

  /** Splitting the joined pairs on '.' gives back the pairs. */
  lemma SplitPairTexts(c: Clock, order: seq<NodeId>)
    requires |order| > 0
    requires forall id :: id in order ==> id in c && '.' !in id
    ensures Split(Join(PairTexts(c, order), '.'), '.') == PairTexts(c, order)
  {
    var texts := PairTexts(c, order);
    forall i | 0 <= i < |texts|
      ensures '.' !in texts[i]
    {
      assert texts[i] == order[i] + ":" + LongToString(c[order[i]]);
    }
    assert texts[|texts| - 1] != "";
    SplitJoin(texts, '.');
  }

  /** Building from the zero clock over `order` and setting each id to its counter gives back `c`. */
  lemma RebuildClock(c: Clock, order: seq<NodeId>)
    requires IsKeyOrder(order, c.Keys)
    ensures ApplyUpdates(Zero(order), order, Counters(c, order)) == c
  {
    var counters := Counters(c, order);
    ApplyDistinctUpdates(Zero(order), order, counters);
    var r := ApplyUpdates(Zero(order), order, counters);
    forall id | id in c
      ensures id in r && r[id] == c[id]
    {
      var i :| 0 <= i < |order| && order[i] == id;
    }
  }

  /**
   * Round trip: whatever order the map yields its keys in, decoding what
   * `toString` wrote gives back the clock, provided there is at least one
   * node and no id holds '.' or ':'.
   */
  lemma DecodeEncode(c: Clock, order: seq<NodeId>)
    requires IsKeyOrder(order, c.Keys)
    requires |c| > 0
    requires forall id :: id in c ==> '.' !in id && ':' !in id
    ensures Decode(Encode(c, order)) == Success(c)
  {
    assert |order| > 0 by {
      var id :| id in c;
    }
    EncodeLayout(c, order);
    SplitPairTexts(c, order);
    ParsePairTexts(c, order);
    RebuildClock(c, order);
  }

  /** The text built so far, once every pair is written, closed by '/'. */
  lemma EncodeFinish(c: Clock, order: seq<NodeId>, sb: string)
    requires IsKeyOrder(order, c.Keys)
    requires sb == Prefix + Join(PairTexts(c, order), '.') + ""
    ensures sb + "/" == Encode(c, order)
  {
    AppendNothing(Prefix + Join(PairTexts(c, order), '.'));
  }

  /** The encoding is framed by the prefix and '/', and reads back whenever the round trip applies. */
  lemma EncodingReadsBack(c: Clock, order: seq<NodeId>)
    requires IsKeyOrder(order, c.Keys)
    ensures var s := Encode(c, order);
            StartsWith(s, Prefix) && s[|s| - 1] == '/' &&
            (|c| > 0 && (forall id :: id in c ==> '.' !in id && ':' !in id) ==> Decode(s) == Success(c))
  {
    EncodeLayout(c, order);
    if |c| > 0 && forall id :: id in c ==> '.' !in id && ':' !in id {
      DecodeEncode(c, order);
    }
  }

  /** Ids that `toString` writes so that `createFromString` reads them back. */
  predicate CleanIds(ids: seq<NodeId>)
  {
    forall id :: id in ids ==> '.' !in id && ':' !in id
  }

  /** A pair free of '.' that parses names an id free of '.' and ':'. */
  lemma ParsedPairId(pair: string)
    requires '.' !in pair && ParsePair(pair).Success?
    ensures CleanIds([ParsePair(pair).value.0])
  {
    SplitPieces(pair, ':');
    assert ParsePair(pair).value.0 == Split(pair, ':')[0];
  }

  /** The ids of pairs free of '.' are free of '.' and ':'. */
  lemma {:induction false} ParsedIds(pairs: seq<string>)
    requires forall p :: p in pairs ==> '.' !in p
    requires ParsePairs(pairs).Success?
    ensures CleanIds(ParsePairs(pairs).value.0)
  {
    if |pairs| > 0 {
      var init := pairs[..|pairs| - 1];
      var last := pairs[|pairs| - 1];
      ParsedLast(pairs);
      assert forall p :: p in init ==> p in pairs;
      ParsedIds(init);
      ParsedPairId(last);
      CleanIdsAppend(ParsePairs(init).value.0, [ParsePair(last).value.0]);
    }
  }

  lemma CleanIdsAppend(a: seq<NodeId>, b: seq<NodeId>)
    requires CleanIds(a) && CleanIds(b)
    ensures CleanIds(a + b)
  {
  }

  /** A list that parses is its front, which parses, followed by a last pair that parses. */
  lemma ParsedLast(pairs: seq<string>)
    requires |pairs| > 0 && ParsePairs(pairs).Success?
    ensures ParsePairs(pairs[..|pairs| - 1]).Success? && ParsePair(pairs[|pairs| - 1]).Success?
    ensures ParsePairs(pairs).value.0 ==
            ParsePairs(pairs[..|pairs| - 1]).value.0 + [ParsePair(pairs[|pairs| - 1]).value.0]
  {
  }


  /**
   * What decoding promises on every input: text without the prefix fails
   * with `MissingPrefix` and nothing else does, and every id of a decoded
   * clock is free of '.' and ':'.
   */
  lemma DecodeOutcome(s: string)
    ensures !StartsWith(s, Prefix) <==> Decode(s) == Failure(MissingPrefix)
    ensures Decode(s).Success? ==> |s| > |Prefix|
    ensures Decode(s).Success? ==> forall id :: id in Decode(s).value ==> '.' !in id && ':' !in id
  {
    if StartsWith(s, Prefix) && |s| - 1 >= |Prefix| {
      var pairs := Split(s[|Prefix|..|s| - 1], '.');
      SplitPieces(s[|Prefix|..|s| - 1], '.');
      if ParsePairs(pairs).Success? {
        assert forall p :: p in pairs ==> '.' !in p;
        ParsedIds(pairs);
      }
    }
  }

  /** The two ways one pair fails, in the order the Java code checks them. */
  lemma ParsePairOutcome(pair: string)
    ensures ParsePair(pair) == Failure(MalformedPair(pair)) <==> |Split(pair, ':')| != 2
    ensures |Split(pair, ':')| == 2 ==>
              (ParsePair(pair) == Failure(MalformedCounter(Split(pair, ':')[1])) <==>
               ParseLong(Split(pair, ':')[1]).None?)
    ensures ParsePair(pair).Success? <==>
              |Split(pair, ':')| == 2 && ParseLong(Split(pair, ':')[1]).Some?
    ensures ParsePair(pair).Success? ==>
              ParsePair(pair).value == (Split(pair, ':')[0], ParseLong(Split(pair, ':')[1]).value)
  {
  }

  /**
   * A list of pairs parses exactly when each pair does, and otherwise fails
   * with the error of the first pair that does not.
   */
  lemma {:induction false} ParsePairsOutcome(pairs: seq<string>)
    ensures ParsePairs(pairs).Success? <==> forall p :: p in pairs ==> ParsePair(p).Success?
    ensures ParsePairs(pairs).Failure? ==>
              exists i :: 0 <= i < |pairs| && ParsePair(pairs[i]) == Failure(ParsePairs(pairs).error) &&
                          forall j :: 0 <= j < i ==> ParsePair(pairs[j]).Success?
  {
    if |pairs| > 0 {
      var init, last := pairs[..|pairs| - 1], pairs[|pairs| - 1];
      ParsePairsOutcome(init);
      assert forall p :: p in pairs <==> p in init || p == last;
      match ParsePairs(init)
      case Failure(e) =>
        var i :| 0 <= i < |init| && ParsePair(init[i]) == Failure(e) &&
                 forall j :: 0 <= j < i ==> ParsePair(init[j]).Success?;
        assert pairs[i] == init[i];
        assert forall j :: 0 <= j < i ==> pairs[j] == init[j];
      case Success(_) =>
        if ParsePair(last).Failure? {
          assert forall j :: 0 <= j < |pairs| - 1 ==> pairs[j] in init;
        }
    }
  }

  /**
   * When decoding succeeds and which error it gives otherwise: text that is
   * the prefix alone is truncated, and past the prefix the first pair that
   * does not parse decides the error.
   */
  lemma DecodeErrors(s: string)
    ensures Decode(s) == Failure(TruncatedText) <==> s == Prefix
    ensures Decode(s).Success? <==>
              StartsWith(s, Prefix) && |s| > |Prefix| &&
              forall p :: p in Split(s[|Prefix|..|s| - 1], '.') ==> ParsePair(p).Success?
    ensures StartsWith(s, Prefix) && |s| > |Prefix| && Decode(s).Failure? ==>
              var pairs := Split(s[|Prefix|..|s| - 1], '.');
              exists i :: 0 <= i < |pairs| && ParsePair(pairs[i]) == Failure(Decode(s).error) &&
                          forall j :: 0 <= j < i ==> ParsePair(pairs[j]).Success?
  {
    if StartsWith(s, Prefix) && |s| <= |Prefix| {
      assert s == s[..|Prefix|];
    }
    if StartsWith(s, Prefix) && |s| > |Prefix| {
      var pairs := Split(s[|Prefix|..|s| - 1], '.');
      DecodeParsed(s, pairs);
      ParsePairsOutcome(pairs);
    }
  }

  /**
   * A clock read from text is written back, in any key order, as text that
   * reads back as the same clock (when it has at least one node).
   */
  lemma DecodeIsStable(s: string, order: seq<NodeId>)
    requires Decode(s).Success? && |Decode(s).value| > 0
    requires IsKeyOrder(order, Decode(s).value.Keys)
    ensures Decode(Encode(Decode(s).value, order)) == Decode(s)
  {
    DecodeOutcome(s);
    DecodeEncode(Decode(s).value, order);
  }

  /** `createFromString` never looks at the last character: it need not be '/'. */
  lemma DecodeIgnoresLastCharacter(s: string, ch: char)
    requires |s| > |Prefix|
    ensures Decode(s[..|s| - 1] + [ch]) == Decode(s)
  {
    var t := s[..|s| - 1] + [ch];
    assert t[..|Prefix|] == s[..|Prefix|];
    assert t[|Prefix|..|t| - 1] == s[|Prefix|..|s| - 1];
  }

  /** Without the exact prefix, decoding fails, whatever follows. */
  lemma DecodeNeedsPrefix(s: string)
    requires |s| < |Prefix| || s[..|Prefix|] != Prefix
    ensures Decode(s) == Failure(MissingPrefix)
  {
  }

  /** A clock with no nodes encodes to "VectorTimestamp//", which does not decode. */
  lemma EmptyClockDoesNotRoundTrip()
    ensures Encode(map[], []) == Prefix + "/"
    ensures Decode(Encode(map[], [])) == Failure(MalformedPair(""))
  {
    var s := Encode(map[], []);
    assert Join(PairTexts(map[], []), '.') == "";
    assert s == Prefix + "/";
    assert s[..|Prefix|] == Prefix;
    assert s[|Prefix|..|s| - 1] == "";
    assert Split("", '.') == [""];
    assert ParsePairs([""]) == Failure(MalformedPair("")) by {
      assert [""][..0] == [];
      assert Split("", ':') == [""];
    }
  }

  /** Text made of dots alone splits into no pairs and decodes to a clock with no nodes. */
  lemma DotsOnlyDecodeToEmptyClock()
    ensures Decode("VectorTimestamp/./") == Success(map[])
  {
    var s := "VectorTimestamp/./";
    assert s[..|Prefix|] == Prefix;
    assert s[|Prefix|..|s| - 1] == ".";
    assert "."[..0] == "";
    assert SplitAll("", '.') == [""];
    assert SplitAll(".", '.') == ["", ""];
    assert ["", ""][..1] == [""];
    assert [""][..0] == [];
    assert Split(".", '.') == [];
  }

  /** The pair texts of a three-node order. */
  lemma PairTextsOfThree(c: Clock, order: seq<NodeId>)
    requires |order| == 3
    requires forall id :: id in order ==> id in c
    ensures PairTexts(c, order) ==
            [PairText(order[0], c[order[0]]), PairText(order[1], c[order[1]]), PairText(order[2], c[order[2]])]
  {
  }

  /** Three distinct nodes written in any order decode back to their counters. */
  lemma ThreeNodeRoundTrip(a: NodeId, b: NodeId, d: NodeId, x: Long, y: Long, z: Long)
    requires a != b && b != d && a != d
    requires '.' !in a && ':' !in a && '.' !in b && ':' !in b && '.' !in d && ':' !in d
    ensures Decode(Prefix + Join([PairText(a, x), PairText(b, y), PairText(d, z)], '.') + "/") ==
            Success(map[a := x, b := y, d := z])
  {
    var c: Clock := map[a := x, b := y, d := z];
    ThreeNodeClock(c, a, b, d, x, y, z);
    ThreeNodeEncode(c, [a, b, d]);
    DecodeEncode(c, [a, b, d]);
  }

  lemma ThreeNodeClock(c: Clock, a: NodeId, b: NodeId, d: NodeId, x: Long, y: Long, z: Long)
    requires a != b && b != d && a != d
    requires '.' !in a && ':' !in a && '.' !in b && ':' !in b && '.' !in d && ':' !in d
    requires c == map[a := x, b := y, d := z]
    ensures IsKeyOrder([a, b, d], c.Keys) && |c| > 0
    ensures forall id :: id in c ==> '.' !in id && ':' !in id
    ensures c[a] == x && c[b] == y && c[d] == z
  {
  }

  lemma ThreeNodeEncode(c: Clock, order: seq<NodeId>)
    requires |order| == 3 && IsKeyOrder(order, c.Keys)
    ensures Encode(c, order) ==
            Prefix + Join([PairText(order[0], c[order[0]]), PairText(order[1], c[order[1]]),
                           PairText(order[2], c[order[2]])], '.') + "/"
  {
    PairTextsOfThree(c, order);
  }

  /**
   * The embedded toString test expects "VectorTimestamp/AR1:0.AR2:0.AR0:0/"
   * for the ids AR0, AR1, AR2: that is the encoding for one of the key
   * orders a hash map may yield.
   */
  lemma ToStringTestIsOneOrder()
    ensures IsKeyOrder(["AR1", "AR2", "AR0"], Zero(["AR0", "AR1", "AR2"]).Keys)
    ensures Encode(Zero(["AR0", "AR1", "AR2"]), ["AR1", "AR2", "AR0"]) == "VectorTimestamp/AR1:0.AR2:0.AR0:0/"
  {
    var c := Zero(["AR0", "AR1", "AR2"]);
    ThreeNodeClock(c, "AR1", "AR2", "AR0", 0, 0, 0);
    ThreeNodeEncode(c, ["AR1", "AR2", "AR0"]);
    ToStringTestText();
  }

  lemma ToStringTestText()
    ensures Prefix + Join([PairText("AR1", 0), PairText("AR2", 0), PairText("AR0", 0)], '.') + "/" ==
            "VectorTimestamp/AR1:0.AR2:0.AR0:0/"
  {
    ToStringTestPieces();
    JoinOfThree(["AR1:0", "AR2:0", "AR0:0"], '.');
  }

  lemma ToStringTestPieces()
    ensures [PairText("AR1", 0), PairText("AR2", 0), PairText("AR0", 0)] == ["AR1:0", "AR2:0", "AR0:0"]
  {
    assert LongToString(0) == "0";
    PairTextLiteral("AR1", 0, "0");
    PairTextLiteral("AR2", 0, "0");
    PairTextLiteral("AR0", 0, "0");
    var pieces := [PairText("AR1", 0), PairText("AR2", 0), PairText("AR0", 0)];
    assert pieces[0] == "AR1:0" && pieces[1] == "AR2:0" && pieces[2] == "AR0:0";
  }

  /**
   * The embedded createFromString test: in
   * "VectorTimestamp/AR1:313.AR2:354.AR0:413/" each id gets the counter
   * written after it.
   */
  lemma FromStringTest()
    ensures Decode("VectorTimestamp/AR1:313.AR2:354.AR0:413/") ==
            Success(map["AR1" := 313, "AR2" := 354, "AR0" := 413])
  {
    FromStringTestText();
    ThreeNodeRoundTrip("AR1", "AR2", "AR0", 313, 354, 413);
  }

  lemma FromStringTestText()
    ensures Prefix + Join([PairText("AR1", 313), PairText("AR2", 354), PairText("AR0", 413)], '.') + "/" ==
            "VectorTimestamp/AR1:313.AR2:354.AR0:413/"
  {
    FromStringTestPieces();
    JoinOfThree(["AR1:313", "AR2:354", "AR0:413"], '.');
  }

  lemma FromStringTestPieces()
    ensures [PairText("AR1", 313), PairText("AR2", 354), PairText("AR0", 413)] == ["AR1:313", "AR2:354", "AR0:413"]
  {
    DecimalLiterals();
    PairTextLiteral("AR1", 313, "313");
    PairTextLiteral("AR2", 354, "354");
    PairTextLiteral("AR0", 413, "413");
    var pieces := [PairText("AR1", 313), PairText("AR2", 354), PairText("AR0", 413)];
    assert pieces[0] == "AR1:313" && pieces[1] == "AR2:354" && pieces[2] == "AR0:413";
  }

  lemma PairTextLiteral(id: NodeId, v: Long, digits: string)
    requires LongToString(v) == digits
    ensures PairText(id, v) == id + [':'] + digits
  {
  }

  lemma DecimalLiterals()
    ensures LongToString(313) == "313" && LongToString(354) == "354" && LongToString(413) == "413"
  {
    assert NatToDecimal(3) == "3" && NatToDecimal(31) == "31" && NatToDecimal(313) == "313";
    assert NatToDecimal(35) == "35" && NatToDecimal(354) == "354";
    assert NatToDecimal(41) == "41" && NatToDecimal(413) == "413";
  }

  lemma JoinOfThree(parts: seq<string>, sep: char)
    requires |parts| == 3
    ensures Join(parts, sep) == parts[0] + [sep] + parts[1] + [sep] + parts[2]
  {
    var two := parts[..2];
    assert two[..1] == [parts[0]];
    assert Join(two, sep) == parts[0] + [sep] + parts[1];
  }
}
