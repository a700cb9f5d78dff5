/**
 * What one Redis node does for the two commands the manager sends it (INCRBY and GET), and what
 * `RedisManager.get` does with the reply. A node's data is a map from key to the bytes stored there.
 */
module RedisStore {
  import opened Wrappers
  import opened Numerals

  newtype byte = b: int | 0 <= b < 256

  type Bytes = seq<byte>

  /** The string keys one node holds, with their stored values. */
  type Store = map<string, Bytes>

  /** The exceptions the two operations can raise. */
  datatype Error =
    | ZeroDivision   // `hash(key) % len(redis_clients)` with no clients
    | NotAnInteger   // Redis: "value is not an integer or out of range"
    | Overflow       // Redis: "increment or decrement would overflow"
    | ValueError     // Python: the stored bytes do not decode, or `int()` rejects the text

  const Int64Min: int := -0x8000_0000_0000_0000
  const Int64Max: int := 0x7FFF_FFFF_FFFF_FFFF

  predicate InInt64(n: int)
  {
    Int64Min <= n <= Int64Max
  }

  function Lookup(m: Store, key: string): (r: Option<Bytes>)
    ensures r.Some? <==> key in m
    ensures r.Some? ==> r.value == m[key]
  {
    if key in m then Some(m[key]) else None
  }

  predicate IsAscii(s: string)
  {
    forall i :: 0 <= i < |s| ==> s[i] as int < 128
  }

  /** The bytes of an ASCII string (its UTF-8 encoding). */
  function EncodeAscii(s: string): (b: Bytes)
    requires IsAscii(s)
    ensures |b| == |s|
  {
    if s == [] then [] else [s[0] as int as byte] + EncodeAscii(s[1..])
  }

  /** `value.decode('utf-8')` on the ASCII range; any byte from 0x80 up counts as a failed decode. */
  function DecodeAscii(b: Bytes): (r: Option<string>)
    ensures r.Some? ==> |r.value| == |b|
  {
    if b == [] then Some([])
    else if b[0] >= 128 then None
    else
      match DecodeAscii(b[1..])
      case None => None
      case Some(t) => Some([b[0] as int as char] + t)
  }

  /** Decoding undoes encoding. */
  lemma {:induction false} DecodeEncodeAscii(s: string)
    requires IsAscii(s)
    ensures DecodeAscii(EncodeAscii(s)) == Some(s)
  {
    if s != [] {
      var b := EncodeAscii(s);
      assert b[1..] == EncodeAscii(s[1..]);
      DecodeEncodeAscii(s[1..]);
      assert s == [s[0]] + s[1..];
    }
  }

  /** The bytes Redis stores for a counter whose value is `v`: its decimal text. */
  function EncodeCounter(v: int): (b: Bytes)
    ensures |b| >= 1
  {
    var t := Decimal(v);
    assert IsAscii(t) by { DecimalShape(v); }
    EncodeAscii(t)
  }

  /** How Redis reads a stored value as a 64-bit integer before adding to it. */
  function RedisInteger(b: Bytes): Option<int>
  {
    match DecodeAscii(b)
    case None => None
    case Some(t) =>
      match CanonicalValue(t)
      case Some(v) => if InInt64(v) then Some(v) else None
      case None => None
  }

  /**
   * INCRBY on one node: an absent key counts as 0; the amount and the stored value must be
   * 64-bit integers and so must their sum. Returns the new value.
   */
  function IncrBy(stored: Option<Bytes>, amount: int): (r: Result<int, Error>)
    ensures r.Success? ==> InInt64(r.value)
    ensures stored.None? && InInt64(amount) ==> r == Success(amount)
    ensures r.Failure? ==> r.error == NotAnInteger || r.error == Overflow
  {
    var current := if stored.None? then Some(0) else RedisInteger(stored.value);
    if !InInt64(amount) || current.None? then Failure(NotAnInteger)
    else if !InInt64(current.value + amount) then Failure(Overflow)
    else Success(current.value + amount)
  }

  /**
   * INCRBY succeeds on a stored value only when that value is exactly the text Redis itself
   * writes for the previous counter.
   */
  lemma IncrByStoredCanonical(stored: Option<Bytes>, amount: int)
    requires IncrBy(stored, amount).Success? && stored.Some?
    ensures stored.value == EncodeCounter(IncrBy(stored, amount).value - amount)
  {
    var v := IncrBy(stored, amount).value - amount;
    var t := DecodeAscii(stored.value).value;
    CanonicalIsDecimal(t, v);
    DecodeEncodeAscii(Decimal(v));
    DecodeInjective(stored.value, EncodeCounter(v));
  }

  /** Two byte strings that decode to the same text are equal. */
  lemma {:induction false} DecodeInjective(a: Bytes, b: Bytes)
    requires DecodeAscii(a).Some? && DecodeAscii(a) == DecodeAscii(b)
    ensures a == b
  {
    if a != [] {
      var ta, tb := DecodeAscii(a[1..]).value, DecodeAscii(b[1..]).value;
      assert b != [] && [a[0] as int as char] + ta == [b[0] as int as char] + tb;
      assert ta == ([a[0] as int as char] + ta)[1..];
      assert a[0] as int == b[0] as int;
      DecodeInjective(a[1..], b[1..]);
      assert a == [a[0]] + a[1..] && b == [b[0]] + b[1..];
    }
  }

  /** The part of `RedisManager.get` after the GET reply: absent means 0, else decode and `int()`. */
  function ReadCounter(stored: Option<Bytes>): (r: Result<int, Error>)
    ensures stored.None? ==> r == Success(0)
    ensures r.Failure? ==> r.error == ValueError
  {
    match stored
    case None => Success(0)
    case Some(b) =>
      match DecodeAscii(b)
      case None => Failure(ValueError)
      case Some(t) =>
        match PyIntValue(t)
        case None => Failure(ValueError)
        case Some(v) => Success(v)
  }

  /** Decimal round trip: a counter stored by Redis is read back by `get` as the same integer. */
  lemma ReadEncodedCounter(v: int)
    ensures ReadCounter(Some(EncodeCounter(v))) == Success(v)
  {
    DecodeEncodeAscii(Decimal(v));
    PyIntOfDecimal(v);
  }

  /** A 64-bit counter stored by Redis is one Redis can add to again. */
  lemma IncrementEncodedCounter(v: int)
    requires InInt64(v)
    ensures RedisInteger(EncodeCounter(v)) == Some(v)
  {
    DecodeEncodeAscii(Decimal(v));
    CanonicalOfDecimal(v);
  }

  /**
   * INCRBY and `get` agree: when INCRBY succeeds, `get` read the previous value before it (and,
   * by `ReadEncodedCounter`, reads the returned value after it).
   */
  lemma IncrByReadAgreement(stored: Option<Bytes>, amount: int)
    requires IncrBy(stored, amount).Success?
    ensures ReadCounter(stored) == Success(IncrBy(stored, amount).value - amount)
  {
    if stored.Some? {
      var v := IncrBy(stored, amount).value - amount;
      IncrByStoredCanonical(stored, amount);
      ReadEncodedCounter(v);
      assert stored == Some(EncodeCounter(v));
    }
  }

  /**
   * `get` is more lenient than INCRBY: text such as "07" reads as 7 through `int()`, but Redis
   * refuses to add to it.
   */
  lemma LenientReadStrictIncrement()
    ensures ReadCounter(Some([48, 55])) == Success(7)
    ensures IncrBy(Some([48, 55]), 1) == Failure(NotAnInteger)
  {
    var b: Bytes := [48, 55];
    assert b == EncodeAscii("07");
    DecodeEncodeAscii("07");
    assert PyText.Strip("07", AsciiSpace) == "07" by {
      PyText.StripUnchanged("07", AsciiSpace);
    }
    assert DigitsValue("07") == 7 by {
      assert "07"[..1] == "0";
    }
    ScanDigitsValue("07");
    assert CanonicalValue("07") == None by {
      assert !IsPositiveDigits("07");
    }
  }
}
