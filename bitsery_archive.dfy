/**
 * The versioned serialization envelope (`DefaultGrowable` and `Growable`).
 *
 * An archive is a stream of tokens. An envelope writes one token for the
 * version tag (a 32-bit value) followed by a payload; reading dispatches on
 * the tag to one of a table of readers and may then run a migration hook.
 * The payload functions themselves are abstract: a `Serializer` writes an
 * object as tokens and reads one back from the front of a stream, given the
 * object it overwrites.
 */
module VersionedArchive {
  import opened Basic

  type Token = nat

  const FIRST_VERSION: nat := 1

  datatype Serializer<!T> = Serializer(write: T -> seq<Token>, read: (seq<Token>, T) -> Option<(T, seq<Token>)>)

  /** Reading back what was written restores the object and leaves the rest of the stream. */
  ghost predicate Faithful<T(!new)>(s: Serializer<T>)
  {
    forall x: T, rest: seq<Token>, y: T :: s.read(s.write(x) + rest, y) == Some((x, rest))
  }

  /** The tag an `index_t` value `t - 1` holds, with unsigned wrap-around at 0. */
  function PreviousIndex(t: nat): (k: nat)
    requires t < INDEX_LIMIT
    ensures k < INDEX_LIMIT
    ensures t >= 1 ==> k == t - 1
    ensures t == 0 ==> k == INDEX_LIMIT - 1
  {
    (t + INDEX_LIMIT - 1) % INDEX_LIMIT
  }

  // ---------------------------------------------------------------------------
  // DefaultGrowable
  // ---------------------------------------------------------------------------

  /** `DefaultGrowable::serialize`: the tag FIRST_VERSION, then the caller's payload. */
  function DefaultEncoded<T>(fnc: Serializer<T>, obj: T): seq<Token>
  {
    [FIRST_VERSION] + fnc.write(obj)
  }

  /**
   * `DefaultGrowable::deserialize`: one tag is consumed, then the caller's
   * reader runs whatever the tag. A missing tag, or a token that is no 32-bit
   * `index_t` value, is a read failure.
   */
  function DefaultDecoded<T>(fnc: Serializer<T>, tokens: seq<Token>, obj: T): Option<(T, seq<Token>)>
  {
    if tokens == [] || tokens[0] >= INDEX_LIMIT then None else fnc.read(tokens[1..], obj)
  }

  lemma DefaultRoundTrip<T(!new)>(fnc: Serializer<T>, x: T, rest: seq<Token>, y: T)
    requires Faithful(fnc)
    ensures DefaultEncoded(fnc, x)[0] == FIRST_VERSION
    ensures DefaultDecoded(fnc, DefaultEncoded(fnc, x) + rest, y) == Some((x, rest))
  {
    assert (DefaultEncoded(fnc, x) + rest)[1..] == fnc.write(x) + rest;
  }

  /** The tag read by `DefaultGrowable::deserialize` has no effect on the result. */
  lemma DefaultIgnoresTag<T>(fnc: Serializer<T>, t1: Token, t2: Token, payload: seq<Token>, obj: T)
    requires t1 < INDEX_LIMIT && t2 < INDEX_LIMIT
    ensures DefaultDecoded(fnc, [t1] + payload, obj) == DefaultDecoded(fnc, [t2] + payload, obj)
    ensures DefaultDecoded(fnc, [t1] + payload, obj) == fnc.read(payload, obj)
  {
    assert ([t1] + payload)[1..] == payload;
    assert ([t2] + payload)[1..] == payload;
  }

  // ---------------------------------------------------------------------------
  // Growable
  // ---------------------------------------------------------------------------

  /** A reader/writer table: `version` is the table size as an `index_t`. */
  datatype Growable<!T> = Growable(version: nat, serializers: seq<Serializer<T>>, initializers: seq<T -> T>)

  datatype Construction<!T> =
    | Built(growable: Growable<T>)
    | TooFewSerializers       // `version_ > FIRST_VERSION` failed
    | InitializerCountMismatch // neither no initializer nor `version_ - 1` of them

  /** The state a successful construction leaves. */
  predicate WellFormed<T>(g: Growable<T>)
  {
    g.version == |g.serializers| % INDEX_LIMIT &&
    g.version > FIRST_VERSION &&
    (|g.initializers| == 0 || |g.initializers| == g.version - 1)
  }

  /** The two `Growable` constructors (no initializers is the one-argument form). */
  function MakeGrowable<T>(serializers: seq<Serializer<T>>, initializers: seq<T -> T>): (r: Construction<T>)
    ensures var version := |serializers| % INDEX_LIMIT;
      (r == TooFewSerializers <==> version <= FIRST_VERSION) &&
      (r == InitializerCountMismatch <==>
         version > FIRST_VERSION && |initializers| != 0 && |initializers| != version - 1)
    ensures r.Built? ==>
      WellFormed(r.growable) && r.growable.serializers == serializers && r.growable.initializers == initializers
  {
    var version := |serializers| % INDEX_LIMIT;
    if version <= FIRST_VERSION then TooFewSerializers
    else if !(|initializers| == 0 || |initializers| == version - 1) then InitializerCountMismatch
    else Built(Growable(version, serializers, initializers))
  }

  /** `Growable::serialize`: the tag `version_`, then the LAST serializer's payload. */
  function Encoded<T>(g: Growable<T>, obj: T): seq<Token>
    requires WellFormed(g)
  {
    [g.version] + g.serializers[|g.serializers| - 1].write(obj)
  }

  /** `serializers_.at(t - 1)`: the reader a tag selects, or none where `.at` throws. */
  function SelectReader<T>(g: Growable<T>, t: nat): (r: Option<nat>)
    requires t < INDEX_LIMIT
    ensures r.Some? ==> r.value < |g.serializers|
    ensures r.Some? <==> (t >= 1 && t - 1 < |g.serializers|) || (t == 0 && INDEX_LIMIT - 1 < |g.serializers|)
    ensures r.Some? && t >= 1 ==> r.value == t - 1
  {
    var k := PreviousIndex(t);
    if k < |g.serializers| then Some(k) else None
  }

  /** The migration hook a tag triggers: `initializers_.at(t - 1)` when there are hooks and `t < version_`. */
  function InitializerToRun<T>(g: Growable<T>, t: nat): (r: Option<nat>)
    requires t < INDEX_LIMIT
    ensures r.Some? <==> |g.initializers| > 0 && t < g.version
    ensures r.Some? ==> r.value == PreviousIndex(t)
  {
    if |g.initializers| > 0 && t < g.version then Some(PreviousIndex(t)) else None
  }

  /**
   * `Growable::deserialize`: the tag token is consumed, the selected reader
   * runs, and then the selected hook, if any, runs once on the object read.
   * Any out-of-range `.at`, a tag that is no 32-bit value, or a failing
   * reader gives `None`.
   */
  function Decoded<T>(g: Growable<T>, tokens: seq<Token>, obj: T): Option<(T, seq<Token>)>
  {
    if tokens == [] || tokens[0] >= INDEX_LIMIT then None
    else
      var t := tokens[0];
      match SelectReader(g, t)
      case None => None
      case Some(k) =>
        match g.serializers[k].read(tokens[1..], obj)
        case None => None
        case Some(read) =>
          match InitializerToRun(g, t)
          case None => Some(read)
          case Some(i) => if i < |g.initializers| then Some((g.initializers[i](read.0), read.1)) else None
  }

  /**
   * Round trip: reading what `Growable::serialize` wrote selects the last
   * serializer and runs no hook, so a faithful last serializer restores the
   * object whatever the object being overwritten.
   */
  lemma RoundTrip<T(!new)>(g: Growable<T>, x: T, rest: seq<Token>, y: T)
    requires WellFormed(g) && |g.serializers| < INDEX_LIMIT
    requires Faithful(g.serializers[|g.serializers| - 1])
    ensures SelectReader(g, g.version) == Some(|g.serializers| - 1)
    ensures InitializerToRun(g, g.version) == None
    ensures Decoded(g, Encoded(g, x) + rest, y) == Some((x, rest))
  {
    var last := g.serializers[|g.serializers| - 1];
    assert (Encoded(g, x) + rest)[1..] == last.write(x) + rest;
  }

  /**
   * Dispatch: an older tag `t` (1 <= t < version) runs reader `t - 1` and then,
   * when the table has hooks, hook `t - 1` exactly once on its result.
   */
  lemma OlderTagDispatch<T>(g: Growable<T>, t: nat, payload: seq<Token>, obj: T)
    requires WellFormed(g) && |g.serializers| < INDEX_LIMIT
    requires 1 <= t < g.version
    ensures Decoded(g, [t] + payload, obj) ==
      match g.serializers[t - 1].read(payload, obj)
      case None => None
      case Some(read) =>
        if |g.initializers| == 0 then Some(read) else Some((g.initializers[t - 1](read.0), read.1))
  {
    assert ([t] + payload)[1..] == payload;
  }

  /** The current tag runs the last reader and no hook. */
  lemma CurrentTagDispatch<T>(g: Growable<T>, payload: seq<Token>, obj: T)
    requires WellFormed(g) && |g.serializers| < INDEX_LIMIT
    ensures Decoded(g, [g.version] + payload, obj) == g.serializers[g.version - 1].read(payload, obj)
  {
    assert ([g.version] + payload)[1..] == payload;
  }

  /** Tag 0 (whose `t - 1` wraps to `0xFFFFFFFF`) and tags above the version are refused. */
  lemma RejectedTags<T>(g: Growable<T>, t: nat, payload: seq<Token>, obj: T)
    requires WellFormed(g) && |g.serializers| < INDEX_LIMIT
    requires t == 0 || g.version < t < INDEX_LIMIT
    ensures Decoded(g, [t] + payload, obj) == None
  {
  }

  // ---------------------------------------------------------------------------
  // Archives
  // ---------------------------------------------------------------------------

  /** The writing side of an archive: everything written so far. */
  class OutputArchive {
    var tokens: seq<Token>

    constructor ()
      ensures tokens == []
    {
      tokens := [];
    }

    method Write(data: seq<Token>)
      modifies this
      ensures tokens == old(tokens) + data
    {
      tokens := tokens + data;
    }
  }

  /** The reading side of an archive: what is left to read. */
  class InputArchive {
    var tokens: seq<Token>

    constructor (data: seq<Token>)
      ensures tokens == data
    {
      tokens := data;
    }
  }

  /** `DefaultGrowable::serialize` on an archive. */
  method DefaultSerialize<T>(ser: OutputArchive, obj: T, fnc: Serializer<T>)
    modifies ser
    ensures ser.tokens == old(ser.tokens) + DefaultEncoded(fnc, obj)
  {
    ser.Write([FIRST_VERSION]);
    ser.Write(fnc.write(obj));
  }

  /** `DefaultGrowable::deserialize` on an archive: the object read replaces `obj`. */
  method DefaultDeserialize<T>(des: InputArchive, obj: T, fnc: Serializer<T>) returns (r: Option<T>)
    modifies des
    ensures DefaultDecoded(fnc, old(des.tokens), obj).None? ==> r.None?
    ensures DefaultDecoded(fnc, old(des.tokens), obj).Some? ==>
      r == Some(DefaultDecoded(fnc, old(des.tokens), obj).value.0) &&
      des.tokens == DefaultDecoded(fnc, old(des.tokens), obj).value.1
  {
    if des.tokens == [] || des.tokens[0] >= INDEX_LIMIT {
      return None;
    }
    des.tokens := des.tokens[1..];
    var read := fnc.read(des.tokens, obj);
    if read.None? {
      return None;
    }
    r := Some(read.value.0);
    des.tokens := read.value.1;
  }

  /** `Growable::serialize` on an archive: the caller's function `fnc` is ignored. */
  method GrowableSerialize<T>(g: Growable<T>, ser: OutputArchive, obj: T, fnc: Serializer<T>)
    requires WellFormed(g)
    modifies ser
    ensures ser.tokens == old(ser.tokens) + Encoded(g, obj)
  {
    ser.Write([g.version]);
    ser.Write(g.serializers[|g.serializers| - 1].write(obj));
  }

  /** `Growable::deserialize` on an archive: the object read (and migrated) replaces `obj`. */
  method GrowableDeserialize<T>(g: Growable<T>, des: InputArchive, obj: T, fnc: Serializer<T>) returns (r: Option<T>)
    modifies des
    ensures Decoded(g, old(des.tokens), obj).None? ==> r.None?
    ensures Decoded(g, old(des.tokens), obj).Some? ==>
      r == Some(Decoded(g, old(des.tokens), obj).value.0) &&
      des.tokens == Decoded(g, old(des.tokens), obj).value.1
  {
    if des.tokens == [] || des.tokens[0] >= INDEX_LIMIT {
      return None;
    }
    var current := des.tokens[0];
    des.tokens := des.tokens[1..];
    var reader := SelectReader(g, current);
    if reader.None? {
      return None;
    }
    var read := g.serializers[reader.value].read(des.tokens, obj);
    if read.None? {
      return None;
    }
    var (x, rest) := read.value;
    des.tokens := rest;
    var hook := InitializerToRun(g, current);
    if hook.Some? {
      if hook.value >= |g.initializers| {
        return None;
      }
      x := g.initializers[hook.value](x);
    }
    r := Some(x);
  }
}
