/**
 * `XDNStatediffApplyRequest`: the envelope carrying an opaque state diff for
 * one service to a replica. Its text form is the type's prefix followed by
 * a JSON object with the members `sn` (service name), `sd` (state diff) and
 * `id` (request id); the JSON object lists them in hash-map order, which is
 * left open here.
 */
module StatediffRequests {
  import opened Wrappers
  import opened JavaLang
  import opened Json

  /** `XDNRequest.SERIALIZED_PREFIX`, shared by every XDN request type. */
  const XdnPrefix: string := "xdn:"

  /** The integer code of `XDNRequestType.XDN_STATEDIFF_APPLY_REQUEST`. */
  const StatediffApplyRequestType: nat := 31303

  /** The request type's own prefix, built as the Java code formats it: "%s%d:". */
  const SerializedPrefix: string := XdnPrefix + NatToDecimal(StatediffApplyRequestType) + ":"

  /** The three values an envelope carries. */
  datatype RequestFields = RequestFields(serviceName: string, statediff: string, requestID: Long)

  /** The JSON members, named by what they hold. */
  datatype Field = ServiceNameField | StatediffField | RequestIdField

  function Key(f: Field): string
  {
    match f
    case ServiceNameField => "sn"
    case StatediffField => "sd"
    case RequestIdField => "id"
  }

  function MemberOf(r: RequestFields, f: Field): Member
  {
    match f
    case ServiceNameField => ("sn", JString(r.serviceName))
    case StatediffField => ("sd", JString(r.statediff))
    case RequestIdField => ("id", JNumber(r.requestID))
  }

  /** Each of the three members exactly once: one order a hash map may list them in. */
  predicate IsFieldOrder(order: seq<Field>)
  {
    |order| == 3 && order[0] != order[1] && order[1] != order[2] && order[0] != order[2]
  }

  const FieldOrders: set<seq<Field>> := {
    [ServiceNameField, StatediffField, RequestIdField], [ServiceNameField, RequestIdField, StatediffField],
    [StatediffField, ServiceNameField, RequestIdField], [StatediffField, RequestIdField, ServiceNameField],
    [RequestIdField, ServiceNameField, StatediffField], [RequestIdField, StatediffField, ServiceNameField]
  }

  function Members(r: RequestFields, order: seq<Field>): (ms: seq<Member>)
    ensures |ms| == |order|
    ensures forall i :: 0 <= i < |order| ==> ms[i] == MemberOf(r, order[i])
  {
    if |order| == 0 then [] else [MemberOf(r, order[0])] + Members(r, order[1..])
  }

  /** `toString`: the prefix, then the three members as one JSON object. */
  function Serialize(r: RequestFields, order: seq<Field>): string
    requires IsFieldOrder(order)
  {
    SerializedPrefix + EncodeObject(Members(r, order))
  }

  /** `JSONObject.getString`: present and a string. */
  function GetString(ms: seq<Member>, key: string): (r: Option<string>)
    ensures r.Some? <==> Lookup(ms, key).Some? && Lookup(ms, key).value.JString?
    ensures r.Some? ==> Lookup(ms, key) == Some(JString(r.value))
  {
    match Lookup(ms, key)
    case Some(JString(s)) => Some(s)
    case _ => None
  }

  /**
   * `JSONObject.getLong`: a number within the `long` range, or a string that
   * `Long.parseLong` accepts.
   */
  function GetLong(ms: seq<Member>, key: string): (r: Option<Long>)
    ensures Lookup(ms, key).None? ==> r.None?
    ensures forall n :: Lookup(ms, key) == Some(JNumber(n)) ==> (r.Some? <==> MinLong <= n <= MaxLong)
    ensures forall t :: Lookup(ms, key) == Some(JString(t)) ==> r == ParseLong(t)
    ensures r.Some? ==> Lookup(ms, key) == Some(JNumber(r.value)) ||
                        (exists t :: Lookup(ms, key) == Some(JString(t)) && ParseLong(t) == r)
  {
    match Lookup(ms, key)
    case Some(JNumber(n)) => if MinLong <= n <= MaxLong then Some(n) else None
    case Some(JString(s)) => ParseLong(s)
    case _ => None
  }

  /**
   * `createFromString` on the values: nothing for a null input, a wrong
   * prefix, text that is not one JSON object, or a missing or mistyped
   * member.
   */
  function Deserialize(encoded: Option<string>): Option<RequestFields>
  {
    if encoded.None? || !StartsWith(encoded.value, SerializedPrefix) then None
    else
      match ParseJsonObject(encoded.value[|SerializedPrefix|..])
      case None => None
      case Some(ms) =>
        match (GetString(ms, "sn"), GetString(ms, "sd"), GetLong(ms, "id"))
        case (Some(sn), Some(sd), Some(id)) => Some(RequestFields(sn, sd, id))
        case _ => None
  }

  // -----------------------------------------------------------------------
  // Laws
  // -----------------------------------------------------------------------

  /** The prefix is the one the class documents. */
  lemma SerializedPrefixValue()
    ensures SerializedPrefix == "xdn:31303:"
  {
    assert NatToDecimal(31303) == "31303";
  }

  /** The six orders are exactly the orders that list each member once. */
  lemma FieldOrdersAreTheOrders(order: seq<Field>)
    ensures IsFieldOrder(order) <==> order in FieldOrders
  {
    if IsFieldOrder(order) {
      assert order == [order[0], order[1], order[2]];
    }
  }

  lemma MembersDistinct(r: RequestFields, order: seq<Field>)
    requires IsFieldOrder(order)
    ensures DistinctKeys(Members(r, order))
  {
  }

  /** Where a member stands in a field order. */
  lemma FieldPosition(order: seq<Field>, f: Field) returns (i: nat)
    requires IsFieldOrder(order)
    ensures i < 3 && order[i] == f
  {
    if order[0] == f {
      i := 0;
    } else if order[1] == f {
      i := 1;
    } else {
      i := 2;
    }
  }

  /** Whatever the order, a member's key finds that member's value. */
  lemma FieldLookup(r: RequestFields, order: seq<Field>, f: Field)
    requires IsFieldOrder(order)
    ensures Lookup(Members(r, order), Key(f)) == Some(MemberOf(r, f).1)
  {
    var i := FieldPosition(order, f);
    MembersDistinct(r, order);
    LookupDistinct(Members(r, order), i);
  }

  lemma MembersLookup(r: RequestFields, order: seq<Field>)
    requires IsFieldOrder(order)
    ensures GetString(Members(r, order), "sn") == Some(r.serviceName)
    ensures GetString(Members(r, order), "sd") == Some(r.statediff)
    ensures GetLong(Members(r, order), "id") == Some(r.requestID)
  {
    FieldLookup(r, order, ServiceNameField);
    FieldLookup(r, order, StatediffField);
    FieldLookup(r, order, RequestIdField);
  }

  /** Round trip: what `toString` writes, `createFromString` reads back, in every member order. */
  lemma DeserializeSerialize(r: RequestFields, order: seq<Field>)
    requires IsFieldOrder(order)
    ensures Deserialize(Some(Serialize(r, order))) == Some(r)
  {
    var ms := Members(r, order);
    var body := EncodeObject(ms);
    MembersDistinct(r, order);
    ObjectRoundTrip(ms);
    MembersLookup(r, order);
    AfterPrefix(SerializedPrefix, body);
  }

  lemma AfterPrefix(p: string, body: string)
    ensures StartsWith(p + body, p) && (p + body)[|p|..] == body
  {
  }

  /** Without the prefix, whatever follows, there is no request. */
  lemma DeserializeNeedsPrefix(s: string)
    requires !StartsWith(s, SerializedPrefix)
    ensures Deserialize(Some(s)) == None
  {
  }

  /** Signed 32-bit wrap-around of Java `int` arithmetic. */
  function WrapInt(x: int): (r: int)
    ensures -0x8000_0000 <= r < 0x8000_0000
    ensures SameInt(r, x)
  {
    (x + 0x8000_0000) % 0x1_0000_0000 - 0x8000_0000
  }

  const IntModulus: int := 0x1_0000_0000

  /** Equal modulo 2^32: what Java `int` arithmetic keeps of an exact value. */
  predicate SameInt(x: int, y: int)
  {
    (x - y) % IntModulus == 0
  }

  /** The exact value of the polynomial s[0]*31^(n-1) + ... + s[n-1], without wrapping. */
  function StringPolynomial(s: string): int
  {
    if |s| == 0 then 0 else 31 * StringPolynomial(s[..|s| - 1]) + s[|s| - 1] as int
  }

  /** `String.hashCode`: the polynomial in `int` arithmetic, so equal to it modulo 2^32. */
  function StringHash(s: string): (h: Int32)
    ensures SameInt(h, StringPolynomial(s))
  {
    if |s| == 0 then 0
    else
      var init := StringHash(s[..|s| - 1]);
      CongruentAffine(init, StringPolynomial(s[..|s| - 1]), 31, s[|s| - 1] as int);
      WrapInt(31 * init + s[|s| - 1] as int)
  }

  /** `x - y` divisible by 2^32 carries over to `k * x + d` and `k * y + d`, and through `WrapInt`. */
  lemma CongruentAffine(x: int, y: int, k: int, d: int)
    requires SameInt(x, y)
    ensures SameInt(WrapInt(k * x + d), k * y + d)
  {
    var q := (x - y) / IntModulus;
    assert x - y == IntModulus * q;
    assert (k * x + d) - (k * y + d) == IntModulus * (k * q) by {
      assert k * x - k * y == k * (x - y);
    }
    var w := WrapInt(k * x + d);
    var p := (w - (k * x + d)) / IntModulus;
    assert w - (k * x + d) == IntModulus * p;
    assert w - (k * y + d) == IntModulus * (p + k * q);
  }

  /**
   * `Long.hashCode`: `(int)(value ^ (value >>> 32))`, the two 32-bit halves
   * exclusive-or'ed. Bit i of the hash is bit i of `v` exclusive-or bit
   * i + 32 of `v`, for each of the 32 bits of an `int`; these bits fix the
   * `int` completely.
   */
  function LongHash(v: Long): (h: Int32)
    ensures forall i :: 0 <= i < 32 ==> Bit(h, i) == (if Bit(v, i) == Bit(v, i + 32) then 0 else 1)
    ensures 0 <= v < 0x8000_0000 ==> h == v
  {
    var u := if v < 0 then v as int + 0x1_0000_0000_0000_0000 else v as int;
    var high := u / IntModulus;
    var low := u % IntModulus;
    SmallLongHalves(v, u, high, low);
    LongHashBits(v, u, high, low);
    WrapInt(Xor(high, low))
  }

  /** Bit by bit: the low half holds bits 0-31 of `v`, the high half bits 32-63. */
  lemma LongHashBits(v: Long, u: int, high: nat, low: nat)
    requires u == (if v < 0 then v as int + 0x1_0000_0000_0000_0000 else v as int)
    requires high == u / IntModulus && low == u % IntModulus
    ensures forall i :: 0 <= i < 32 ==>
              Bit(WrapInt(Xor(high, low)), i) == (if Bit(v, i) == Bit(v, i + 32) then 0 else 1)
  {
    var k, down := LongHalves(v, u, high, low);
    XorBound(high, low, 32);
    var x := Xor(high, low);
    var c := WrapAsMultiple(x);
    forall i | 0 <= i < 32
      ensures Bit(WrapInt(x), i) == (if Bit(v, i) == Bit(v, i + 32) then 0 else 1)
    {
      LongHashBit(v, u, high, low, k, down, c, i);
    }
  }

  lemma LongHashBit(v: int, u: int, high: nat, low: nat, k: int, down: int, c: int, i: nat)
    requires i < 32
    requires u == v + k * Pow2(64)
    requires low == u + down * Pow2(32)
    requires high == u / Pow2(32)
    requires WrapInt(Xor(high, low)) == Xor(high, low) + c * Pow2(32)
    ensures Bit(WrapInt(Xor(high, low)), i) == (if Bit(v, i) == Bit(v, i + 32) then 0 else 1)
  {
    BitOfWrapped(Xor(high, low), c, 32, i);
    XorBit(high, low, i);
    BitOfHighHalf(v, u, high, k, 32, i);
    BitOfLowHalf(v, u, low, k, down, 32, i);
  }

  lemma BitOfWrapped(x: int, c: int, n: nat, i: nat)
    requires i < n && WrapInt(x) == x + c * Pow2(n)
    ensures Bit(WrapInt(x), i) == Bit(x, i)
  {
    BitAddMultiple(x, c, n, i);
  }

  lemma BitOfHighHalf(v: int, u: int, high: int, k: int, n: nat, i: nat)
    requires i < n && u == v + k * Pow2(2 * n) && high == u / Pow2(n)
    ensures Bit(high, i) == Bit(v, i + n)
  {
    BitOfShift(u, n, i);
    BitAddMultiple(v, k, 2 * n, i + n);
  }

  lemma BitOfLowHalf(v: int, u: int, low: int, k: int, down: int, n: nat, i: nat)
    requires i < n && u == v + k * Pow2(2 * n) && low == u + down * Pow2(n)
    ensures Bit(low, i) == Bit(v, i)
  {
    BitAddMultiple(u, down, n, i);
    BitAddMultiple(v, k, 2 * n, i);
  }

  /** `v` and its unsigned 64-bit reading differ by a multiple of 2^64, which splits at 2^32. */
  lemma LongHalves(v: Long, u: int, high: nat, low: nat) returns (k: int, down: int)
    requires u == (if v < 0 then v as int + 0x1_0000_0000_0000_0000 else v as int)
    requires high == u / IntModulus && low == u % IntModulus
    ensures u == v + k * Pow2(64)
    ensures low == u + down * Pow2(32)
    ensures high == u / Pow2(32) && high < Pow2(32) && low < Pow2(32)
  {
    Pow2Of32();
    Pow2Of64();
    k := if v < 0 then 1 else 0;
    down := -(high as int);
  }

  /** The `int` cast of a 32-bit unsigned value moves it by a multiple of 2^32. */
  lemma WrapAsMultiple(x: int) returns (c: int)
    requires 0 <= x < Pow2(32)
    ensures WrapInt(x) == x + c * Pow2(32)
  {
    Pow2Of32();
    c := if x < 0x8000_0000 then 0 else -1;
  }

  /** A value below 2^31 has no high half, so exclusive-or with it changes nothing. */
  lemma SmallLongHalves(v: Long, u: int, high: int, low: int)
    requires u == (if v < 0 then v as int + 0x1_0000_0000_0000_0000 else v as int)
    requires high == u / IntModulus && low == u % IntModulus
    ensures 0 <= high && 0 <= low
    ensures 0 <= v < 0x8000_0000 ==> WrapInt(Xor(high, low)) == v
  {
    if 0 <= v < 0x8000_0000 {
      assert high == 0 && low == v;
      WrapSmall(low);
    }
  }

  lemma WrapSmall(x: int)
    requires 0 <= x < 0x8000_0000
    ensures WrapInt(x) == x
  {
    assert (x + 0x8000_0000) % IntModulus == x + 0x8000_0000;
  }

  /** The exact value of 31 * (31 * (31 * 1 + a) + b) + c, without wrapping. */
  function HashPolynomial(a: int, b: int, c: int): int
  {
    29791 + 961 * a + 31 * b + c
  }

  /** `Objects.hash(a, b, c)`: the polynomial in `int` arithmetic, so equal to it modulo 2^32. */
  function Hash3(a: int, b: int, c: int): (h: Int32)
    ensures SameInt(h, HashPolynomial(a, b, c))
  {
    var first := WrapInt(31 * 1 + a);
    CongruentAffine(31 + a, 31 + a, 1, 0);
    var second := WrapInt(31 * first + b);
    CongruentAffine(first, 31 + a, 31, b);
    CongruentAffine(second, 31 * (31 + a) + b, 31, c);
    WrapInt(31 * second + c)
  }

  class XDNStatediffApplyRequest {
    const serviceName: string
    const statediff: string
    var requestID: Long

    /** The request id starts as the current time in milliseconds, given here as a parameter. */
    constructor(serviceName: string, statediff: string, currentTimeMillis: Long)
      ensures this.serviceName == serviceName && this.statediff == statediff
      ensures requestID == currentTimeMillis
    {
      this.serviceName := serviceName;
      this.statediff := statediff;
      requestID := currentTimeMillis;
    }

    /** The three values the getters return, as one value. */
    function Contents(): RequestFields
      reads this
    {
      RequestFields(GetServiceName(), GetStatediff(), GetRequestID())
    }

    /** Always the state-diff type, whose code is the one in the serialized prefix. */
    function GetRequestType(): (t: nat)
      ensures SerializedPrefix == XdnPrefix + NatToDecimal(t) + ":"
    {
      StatediffApplyRequestType
    }

    function GetServiceName(): string
    {
      serviceName
    }

    function GetRequestID(): Long
      reads this
    {
      requestID
    }

    /** Replaces the request id; the service name and state diff are final. */
    method SetRequestID(requestID: Long)
      modifies this`requestID
      ensures GetRequestID() == requestID
      ensures Contents() == old(Contents()).(requestID := requestID)
    {
      this.requestID := requestID;
    }

    function GetStatediff(): string
    {
      statediff
    }

    /** A state diff is always ordered through the replica group's coordinator. */
    function NeedsCoordination(): (b: bool)
      ensures b
    {
      true
    }

    /** The text form, members in the order the JSON object's hash map yields them. */
    method ToString() returns (s: string, ghost order: seq<Field>)
      ensures IsFieldOrder(order)
      ensures s == Serialize(Contents(), order)
      ensures Deserialize(Some(s)) == Some(Contents())
    {
      var o :| o in FieldOrders;
      FieldOrdersAreTheOrders(o);
      s := SerializedPrefix + EncodeObject(Members(Contents(), o));
      order := o;
      DeserializeSerialize(Contents(), order);
    }

    /** `Objects.hash` of the service name, the state diff and the request id. */
    function HashCode(): (h: Int32)
      reads this
      ensures SameInt(h, HashPolynomial(StringHash(serviceName), StringHash(statediff), LongHash(requestID)))
    {
      Hash3(StringHash(serviceName), StringHash(statediff), LongHash(requestID))
    }

    /** Same class, and the same service name, state diff and request id. */
    function Equals(o: XDNStatediffApplyRequest?): (b: bool)
      reads this, o
      ensures b <==> o != null && Contents() == o.Contents()
    {
      if this == o then true
      else if o == null then false
      else serviceName == o.serviceName && statediff == o.statediff && requestID == o.requestID
    }

    /**
     * Null for a null input, a wrong prefix, malformed JSON or a missing or
     * mistyped member; otherwise a new request holding the decoded values.
     */
    static method CreateFromString(encodedRequest: Option<string>, currentTimeMillis: Long)
      returns (r: XDNStatediffApplyRequest?)
      ensures r == null <==> Deserialize(encodedRequest).None?
      ensures r != null ==> fresh(r) && r.Contents() == Deserialize(encodedRequest).value
    {
      if encodedRequest.None? || !StartsWith(encodedRequest.value, SerializedPrefix) {
        return null;
      }
      var text := encodedRequest.value[|SerializedPrefix|..];
      var json := ParseJsonObject(text);
      if json.None? {
        return null;
      }
      var serviceName := GetString(json.value, "sn");
      var statediffStr := GetString(json.value, "sd");
      var requestID := GetLong(json.value, "id");
      if serviceName.None? || statediffStr.None? || requestID.None? {
        return null;
      }
      var request := new XDNStatediffApplyRequest(serviceName.value, statediffStr.value, currentTimeMillis);
      request.SetRequestID(requestID.value);
      return request;
    }
  }

  /** `equals` is an equivalence relation. */
  lemma EqualsIsEquivalence(a: XDNStatediffApplyRequest, b: XDNStatediffApplyRequest, c: XDNStatediffApplyRequest)
    ensures a.Equals(a)
    ensures a.Equals(b) <==> b.Equals(a)
    ensures a.Equals(b) && b.Equals(c) ==> a.Equals(c)
  {
  }

  /** Equal requests have equal hash codes. */
  lemma EqualsImpliesSameHashCode(a: XDNStatediffApplyRequest, b: XDNStatediffApplyRequest)
    requires a.Equals(b)
    ensures a.HashCode() == b.HashCode()
  {
  }
}
