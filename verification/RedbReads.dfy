/** What redb's reads make of any byte map, whether or not the store wrote it. */
module RedbReads {
  import opened Wrappers
  import opened Lex
  import opened KeyCodec
  import BigEndian
  import opened RowLayout
  import opened RedbStorage

  /** A stored key of the table that is no counter. */
  predicate IsMine(data: map<Bytes, Blob>, t: Name, b: Bytes) {
    b in data && StartsWith(b, DataPrefix(t)) && !StartsWith(b, COUNTER_PREFIX)
  }

  function Decoded(t: Name, b: Bytes): Option<Key> {
    if StartsWith(b, DataPrefix(t)) then DecodeKey(Redb, b[|DataPrefix(t)|..]) else None
  }

  ghost predicate SomeUndecodable(data: map<Bytes, Blob>, t: Name, keys: seq<Bytes>) {
    exists b :: b in keys && IsMine(data, t, b) && Decoded(t, b).None?
  }

  ghost predicate Listed(data: map<Bytes, Blob>, t: Name, keys: seq<Bytes>, k: Key, v: Blob) {
    exists b :: b in keys && IsMine(data, t, b) && Decoded(t, b) == Some(k) && data[b] == v
  }

  lemma {:induction false} ScanKeysOfAny(data: map<Bytes, Blob>, t: Name, keys: seq<Bytes>)
    requires StrictlySorted(keys) && forall b :: b in keys ==> b in data && !Less(b, DataPrefix(t))
    ensures match ScanKeys(data, t, keys)
            case Ok(r) => !SomeUndecodable(data, t, keys) && forall k: Key, v: Blob :: (k, v) in r <==> Listed(data, t, keys, k, v)
            case CannotDecodeKey => SomeUndecodable(data, t, keys)
            case CounterCorrupted => false
    decreases keys
  {
    hide DecodeKey, StartsWith, DataPrefix, Less;
    if keys != [] {
      var b, rest := keys[0], keys[1..];
      assert b in keys && forall c :: c in keys <==> c == b || c in rest;
      if StartsWith(b, DataPrefix(t)) {
        ScanKeysOfAny(data, t, rest);
        ScanKeysHead(data, t, keys);
      } else {
        ScanKeysHead(data, t, keys);
        forall c | c in keys ensures !StartsWith(c, DataPrefix(t)) { NoneAfter(t, keys, c); }
      }
    }
  }

  lemma ScanKeysHead(data: map<Bytes, Blob>, t: Name, keys: seq<Bytes>)
    requires keys != [] && forall b :: b in keys ==> b in data
    ensures !StartsWith(keys[0], DataPrefix(t)) ==> ScanKeys(data, t, keys) == Ok([])
    ensures StartsWith(keys[0], DataPrefix(t)) ==>
            ScanKeys(data, t, keys)
            == if !IsMine(data, t, keys[0]) then ScanKeys(data, t, keys[1..])
               else match Decoded(t, keys[0])
                    case None => CannotDecodeKey
                    case Some(k) => Prepend([(k, data[keys[0]])], ScanKeys(data, t, keys[1..]))
  {
    hide DecodeKey, DataPrefix;
    assert keys[0] in keys;
  }

  lemma NoneAfter(t: Name, keys: seq<Bytes>, c: Bytes)
    requires StrictlySorted(keys) && keys != [] && c in keys && !Less(keys[0], DataPrefix(t)) && !StartsWith(keys[0], DataPrefix(t))
    ensures !StartsWith(c, DataPrefix(t))
  {
    hide DataPrefix, StartsWith;
    if c != keys[0] && StartsWith(c, DataPrefix(t)) { PrefixContiguous(DataPrefix(t), keys[0], c); }
  }

  /** Of any data, a scan fails exactly if some key of the table does not decode, and otherwise lists
      exactly the rows under the keys of the table that are no counters. */
  lemma ScanMeans(data: map<Bytes, Blob>, t: Name)
    ensures match Scan(data, t)
            case Ok(r) =>
              && (forall b :: IsMine(data, t, b) ==> Decoded(t, b).Some?)
              && forall k: Key, v: Blob :: (k, v) in r <==> exists b :: IsMine(data, t, b) && Decoded(t, b) == Some(k) && data[b] == v
            case CannotDecodeKey => exists b :: IsMine(data, t, b) && Decoded(t, b).None?
            case CounterCorrupted => false
  {
    hide DecodeKey, ScanKeys, Decoded;
    var keys := RangeFrom(data, DataPrefix(t));
    ScanKeysOfAny(data, t, keys);
    forall b: Bytes | IsMine(data, t, b) ensures b in keys { PrefixIsLowerBound(b, DataPrefix(t)); }
    if Scan(data, t).Ok? {
      var r := Scan(data, t).value;
      forall k: Key, v: Blob ensures (k, v) in r <==> exists b :: IsMine(data, t, b) && Decoded(t, b) == Some(k) && data[b] == v {
        assert (k, v) in r <==> Listed(data, t, keys, k, v);
        if b :| IsMine(data, t, b) && Decoded(t, b) == Some(k) && data[b] == v { assert b in keys; }
      }
    }
  }

  // ---- counters

  lemma CounterBytesRead(c: I64)
    ensures |CounterBytes(c)| == 8 && ToSigned(W64, TakeInt(W64, CounterBytes(c)).value) == c
  {
    hide BigEndian.Encode, BigEndian.Decode;
    WidthBound(W64);
    TakeIntEncode(W64, ToUnsigned(W64, c));
    assert CounterBytes(c)[..8] == CounterBytes(c);
  }

  lemma CounterBytesOf(b: Blob)
    requires |b| == 8
    ensures CounterBytes(ToSigned(W64, TakeInt(W64, b).value)) == b
  {
    hide BigEndian.Encode, BigEndian.Decode;
    WidthBound(W64);
    assert b[..8] == b;
    BigEndian.EncodeDecode(b);
  }

  /** A counter reads as a number exactly if its bytes are those of the number, as zero if absent, and
      as corrupted exactly if its bytes are those of no number. */
  lemma CounterReadsIff(data: map<Bytes, Blob>, t: Name, c: I64)
    ensures ReadCounter(data, t) == Ok(c) <==> if CounterKey(t) in data then data[CounterKey(t)] == CounterBytes(c) else c == 0
    ensures ReadCounter(data, t).CounterCorrupted? <==> CounterKey(t) in data && forall n: I64 :: data[CounterKey(t)] != CounterBytes(n)
  {
    hide CounterBytes, TakeInt, ToSigned;
    CounterBytesRead(c);
    if CounterKey(t) in data {
      var b := data[CounterKey(t)];
      if |b| == 8 { CounterBytesOf(b); }
      forall n: I64 ensures |CounterBytes(n)| == 8 { CounterBytesRead(n); }
    }
  }
}
