/** Fixed-width big-endian integers, as written by Rust's `to_be_bytes`. */
module BigEndian {
  import opened Lex

  function Pow256(w: nat): (p: nat)
    ensures p > 0
  {
    if w == 0 then 1 else 256 * Pow256(w - 1)
  }

  function Encode(n: nat, w: nat): (r: Bytes)
    requires n < Pow256(w)
    ensures |r| == w
  {
    if w == 0 then [] else Encode(n / 256, w - 1) + [n % 256]
  }

  function Decode(s: Bytes): (n: nat)
    ensures n < Pow256(|s|)
  {
    if s == [] then 0 else 256 * Decode(s[..|s| - 1]) + s[|s| - 1]
  }

  lemma {:induction false} DecodeEncode(n: nat, w: nat)
    requires n < Pow256(w)
    ensures Decode(Encode(n, w)) == n
  {
    if w > 0 {
      DecodeEncode(n / 256, w - 1);
      assert Encode(n, w)[..w - 1] == Encode(n / 256, w - 1);
    }
  }

  lemma {:induction false} EncodeDecode(s: Bytes)
    ensures Encode(Decode(s), |s|) == s
  {
    if s != [] {
      EncodeDecode(s[..|s| - 1]);
      assert s == s[..|s| - 1] + [s[|s| - 1]];
    }
  }

  lemma {:induction false} LessAppend(a: seq<int>, b: seq<int>, x: int, y: int)
    requires |a| == |b|
    ensures Less(a + [x], b + [y]) <==> Less(a, b) || (a == b && x < y)
  {
    if a != [] {
      assert (a + [x])[1..] == a[1..] + [x] && (b + [y])[1..] == b[1..] + [y];
      LessAppend(a[1..], b[1..], x, y);
      assert a == [a[0]] + a[1..] && b == [b[0]] + b[1..];
    }
  }

  /** Byte order of two equally wide encodings is numeric order. */
  lemma {:induction false} EncodeOrder(m: nat, n: nat, w: nat)
    requires m < Pow256(w) && n < Pow256(w)
    ensures Less(Encode(m, w), Encode(n, w)) <==> m < n
  {
    if w > 0 {
      var a, b := Encode(m / 256, w - 1), Encode(n / 256, w - 1);
      EncodeOrder(m / 256, n / 256, w - 1);
      LessAppend(a, b, m % 256, n % 256);
      if a == b {
        DecodeEncode(m / 256, w - 1);
        DecodeEncode(n / 256, w - 1);
      }
    }
  }
}

/** Row keys and their tagged byte encoding, in the two variants used by the
    redb and the fjall storage back-ends. */
module KeyCodec {
  import opened Wrappers
  import opened Lex
  import BigEndian

  datatype Backend = Redb | Fjall

  datatype Width = W8 | W16 | W32 | W64 | W128

  function Size(w: Width): (n: nat)
    ensures n > 0
  {
    match w
    case W8 => 1
    case W16 => 2
    case W32 => 4
    case W64 => 8
    case W128 => 16
  }

  /** The weight of the sign bit. */
  function Half(w: Width): (h: int)
    ensures h > 0
  {
    match w
    case W8 => 0x80
    case W16 => 0x8000
    case W32 => 0x8000_0000
    case W64 => 0x8000_0000_0000_0000
    case W128 => 0x8000_0000_0000_0000_0000_0000_0000_0000
  }

  lemma WidthBound(w: Width)
    ensures 2 * Half(w) == BigEndian.Pow256(Size(w))
  {
    assert BigEndian.Pow256(4) == 0x1_0000_0000;
    assert BigEndian.Pow256(8) == 0x1_0000_0000_0000_0000;
    assert BigEndian.Pow256(12) == 0x1_0000_0000_0000_0000_0000_0000;
    assert BigEndian.Pow256(16) == 0x1_0000_0000_0000_0000_0000_0000_0000_0000;
  }

  predicate Continuation(b: Byte) { 0x80 <= b <= 0xBF }

  /** Well-formed UTF-8, the test of Rust's `str::from_utf8`. */
  predicate ValidUtf8(s: Bytes) {
    s == []
    || (s[0] <= 0x7F && ValidUtf8(s[1..]))
    || (|s| >= 2 && 0xC2 <= s[0] <= 0xDF && Continuation(s[1]) && ValidUtf8(s[2..]))
    || (|s| >= 3 && 0xE0 <= s[0] <= 0xEF && Continuation(s[1]) && Continuation(s[2])
        && (s[0] == 0xE0 ==> s[1] >= 0xA0) && (s[0] == 0xED ==> s[1] <= 0x9F) && ValidUtf8(s[3..]))
    || (|s| >= 4 && 0xF0 <= s[0] <= 0xF4 && Continuation(s[1]) && Continuation(s[2]) && Continuation(s[3])
        && (s[0] == 0xF0 ==> s[1] >= 0x90) && (s[0] == 0xF4 ==> s[1] <= 0x8F) && ValidUtf8(s[4..]))
  }

  datatype RawKey =
    | Absent
    | Bool(b: bool)
    | Signed(width: Width, n: int)
    | Unsigned(width: Width, u: int)
    | Uuid(id: int)
    | Str(text: Bytes)
    | Bytea(bytes: Bytes)
  {
    predicate InRange() {
      match this
      case Signed(w, n) => -Half(w) <= n < Half(w)
      case Unsigned(w, u) => 0 <= u < 2 * Half(w)
      case Uuid(u) => 0 <= u < 2 * Half(W128)
      case Str(t) => ValidUtf8(t)
      case _ => true
    }
  }

  type Key = k: RawKey | k.InRange() witness Absent

  /** The cast of a signed integer to the unsigned type of the same width. */
  function ToUnsigned(w: Width, n: int): (u: nat)
    requires -Half(w) <= n < Half(w)
    ensures u < 2 * Half(w)
  {
    if n < 0 then n + 2 * Half(w) else n
  }

  /** The cast back: the two's complement reading of an unsigned integer. */
  function ToSigned(w: Width, u: nat): (n: int)
    requires u < 2 * Half(w)
    ensures -Half(w) <= n < Half(w)
  {
    if u >= Half(w) then u - 2 * Half(w) else u
  }

  /** Exclusive or with the sign bit. */
  function FlipSign(w: Width, u: nat): (r: nat)
    requires u < 2 * Half(w)
    ensures r < 2 * Half(w)
  {
    if u >= Half(w) then u - Half(w) else u + Half(w)
  }

  function WidthIndex(w: Width): (i: nat)
    ensures i <= 4
  {
    match w
    case W8 => 0
    case W16 => 1
    case W32 => 2
    case W64 => 3
    case W128 => 4
  }

  const INT_TAG: Byte := 0x10
  const UINT_TAG: Byte := 0x20

  function StrTag(be: Backend): Byte { if be.Redb? then 0x50 else 0x30 }

  function ByteaTag(be: Backend): Byte { if be.Redb? then 0x60 else 0x40 }

  function Tag(be: Backend, k: Key): Byte {
    match k
    case Absent => 0x00
    case Bool(_) => 0x01
    case Signed(w, _) => INT_TAG + WidthIndex(w)
    case Unsigned(w, _) => UINT_TAG + WidthIndex(w)
    case Uuid(_) => UINT_TAG + WidthIndex(W128)
    case Str(_) => StrTag(be)
    case Bytea(_) => ByteaTag(be)
  }

  /** `to_be_bytes` of an unsigned integer of the given width. */
  /** Every integer of its width is a key, and no other. */
  lemma KeyRanges(n: int)
    ensures Signed(W8, n).InRange() <==> -128 <= n <= 127
    ensures Signed(W16, n).InRange() <==> -32768 <= n <= 32767
    ensures Signed(W32, n).InRange() <==> -2147483648 <= n <= 2147483647
    ensures Signed(W64, n).InRange() <==> -9223372036854775808 <= n <= 9223372036854775807
    ensures Signed(W128, n).InRange() <==> -170141183460469231731687303715884105728 <= n <= 170141183460469231731687303715884105727
    ensures Unsigned(W8, n).InRange() <==> 0 <= n <= 255
    ensures Unsigned(W16, n).InRange() <==> 0 <= n <= 65535
    ensures Unsigned(W32, n).InRange() <==> 0 <= n <= 4294967295
    ensures Unsigned(W64, n).InRange() <==> 0 <= n <= 18446744073709551615
    ensures Unsigned(W128, n).InRange() <==> 0 <= n <= 340282366920938463463374607431768211455
    ensures Uuid(n).InRange() <==> Unsigned(W128, n).InRange()
  {
  }

  /** The first byte of every key, as stored by the two back ends. */
  lemma TagTable(k: Key)
    ensures EncodeKey(Redb, k)[0] == match k
                                     case Absent => 0x00
                                     case Bool(_) => 0x01
                                     case Signed(w, _) => (match w case W8 => 0x10 case W16 => 0x11 case W32 => 0x12 case W64 => 0x13 case W128 => 0x14)
                                     case Unsigned(w, _) => (match w case W8 => 0x20 case W16 => 0x21 case W32 => 0x22 case W64 => 0x23 case W128 => 0x24)
                                     case Uuid(_) => 0x24
                                     case Str(_) => 0x50
                                     case Bytea(_) => 0x60
    ensures EncodeKey(Fjall, k)[0] == if k.Str? then 0x30 else if k.Bytea? then 0x40 else EncodeKey(Redb, k)[0]
  {
  }

  function IntBytes(w: Width, u: nat): (r: Bytes)
    requires u < 2 * Half(w)
  {
    WidthBound(w);
    BigEndian.Encode(u, Size(w))
  }

  function Payload(k: Key): Bytes {
    match k
    case Absent => []
    case Bool(b) => if b then [1] else [0]
    case Signed(w, n) => IntBytes(w, FlipSign(w, ToUnsigned(w, n)))
    case Unsigned(w, u) => IntBytes(w, u)
    case Uuid(u) => IntBytes(W128, u)
    case Str(t) => t
    case Bytea(b) => b
  }

  function EncodeKey(be: Backend, k: Key): Bytes {
    [Tag(be, k)] + Payload(k)
  }

  /** Reads the first `Size(w)` bytes; anything after them is ignored. */
  function TakeInt(w: Width, rest: Bytes): (r: Option<nat>)
    ensures r.Some? ==> r.value < 2 * Half(w)
  {
    WidthBound(w);
    if |rest| < Size(w) then None else Some(BigEndian.Decode(rest[..Size(w)]))
  }

  function DecodeSigned(w: Width, rest: Bytes): Option<Key> {
    match TakeInt(w, rest)
    case None => None
    case Some(u) => Some(Signed(w, ToSigned(w, FlipSign(w, u))))
  }

  function DecodeUnsigned(w: Width, rest: Bytes): Option<Key> {
    match TakeInt(w, rest)
    case None => None
    case Some(u) => Some(Unsigned(w, u))
  }

  function WidthAt(i: nat): (w: Width)
    requires i <= 4
    ensures WidthIndex(w) == i
  {
    [W8, W16, W32, W64, W128][i]
  }

  /** `None` stands for an unknown tag or a malformed payload. */
  function DecodeKey(be: Backend, encoded: Bytes): Option<Key> {
    if encoded == [] then None else
      var tag, rest := encoded[0], encoded[1..];
      if tag == 0x00 then Some(Absent)
      else if tag == 0x01 then (if rest == [] then None else Some(Bool(rest[0] != 0)))
      else if INT_TAG <= tag <= INT_TAG + 4 then DecodeSigned(WidthAt(tag - INT_TAG), rest)
      else if UINT_TAG <= tag <= UINT_TAG + 4 then DecodeUnsigned(WidthAt(tag - UINT_TAG), rest)
      else if tag == StrTag(be) then (if ValidUtf8(rest) then Some(Str(rest)) else None)
      else if tag == ByteaTag(be) then Some(Bytea(rest))
      else None
  }

  /** A `Uuid` shares the tag of `U128` and reads back as one. */
  function Canonical(k: Key): Key {
    if k.Uuid? then Unsigned(W128, k.id) else k
  }

  function Rank(k: Key): nat {
    match k
    case Absent => 0
    case Bool(_) => 1
    case Signed(w, _) => 2 + WidthIndex(w)
    case Unsigned(w, _) => 7 + WidthIndex(w)
    case Uuid(_) => 11
    case Str(_) => 12
    case Bytea(_) => 13
  }

  /** Value order inside one key type. */
  predicate ValueLess(a: Key, b: Key) {
    match (a, b)
    case (Bool(x), Bool(y)) => !x && y
    case (Signed(_, x), Signed(_, y)) => x < y
    case (Unsigned(_, x), Unsigned(_, y)) => x < y
    case (Str(x), Str(y)) => Less(x, y)
    case (Bytea(x), Bytea(y)) => Less(x, y)
    case _ => false
  }

  /** Key types in tag order, and value order inside each type. */
  predicate KeyLess(a: Key, b: Key) {
    var x, y := Canonical(a), Canonical(b);
    Rank(x) < Rank(y) || (Rank(x) == Rank(y) && ValueLess(x, y))
  }

  lemma FlippedIsShifted(w: Width, n: int)
    requires -Half(w) <= n < Half(w)
    ensures FlipSign(w, ToUnsigned(w, n)) == n + Half(w)
    ensures ToSigned(w, FlipSign(w, FlipSign(w, ToUnsigned(w, n)))) == n
  {
  }

  lemma EncodeCanonical(be: Backend, k: Key)
    ensures EncodeKey(be, k) == EncodeKey(be, Canonical(k))
  {
  }

  lemma TakeIntEncode(w: Width, u: nat)
    requires u < 2 * Half(w)
    ensures TakeInt(w, IntBytes(w, u)) == Some(u)
  {
    WidthBound(w);
    var s := IntBytes(w, u);
    assert s[..Size(w)] == s;
    BigEndian.DecodeEncode(u, Size(w));
  }

  lemma DecodeEncodeSigned(w: Width, n: int)
    requires -Half(w) <= n < Half(w)
    ensures DecodeSigned(w, Payload(Signed(w, n))) == Some(Signed(w, n))
  {
    FlippedIsShifted(w, n);
    TakeIntEncode(w, FlipSign(w, ToUnsigned(w, n)));
  }

  lemma DecodeEncodeUnsigned(w: Width, u: int)
    requires 0 <= u < 2 * Half(w)
    ensures DecodeUnsigned(w, Payload(Unsigned(w, u))) == Some(Unsigned(w, u))
  {
    TakeIntEncode(w, u);
  }

  /** Decoding gives the key back, a `Uuid` as the `U128` it is stored as. */
  lemma DecodeEncodeKey(be: Backend, k: Key)
    ensures DecodeKey(be, EncodeKey(be, k)) == Some(Canonical(k))
  {
    hide ValidUtf8, IntBytes, TakeInt, ToSigned, ToUnsigned, FlipSign;
    var c := Canonical(k);
    EncodeCanonical(be, k);
    assert EncodeKey(be, c)[1..] == Payload(c);
    match c {
      case Signed(w, n) =>
        DecodeEncodeSigned(w, n);
        assert WidthAt(WidthIndex(w)) == w;
      case Unsigned(w, u) =>
        DecodeEncodeUnsigned(w, u);
        assert WidthAt(WidthIndex(w)) == w;
      case _ =>
    }
  }

  /** Two keys share an encoding exactly when they are the same key up to Uuid/U128. */
  lemma EncodeInjective(be: Backend, a: Key, b: Key)
    ensures EncodeKey(be, a) == EncodeKey(be, b) <==> Canonical(a) == Canonical(b)
  {
    DecodeEncodeKey(be, a);
    DecodeEncodeKey(be, b);
    EncodeCanonical(be, a);
    EncodeCanonical(be, b);
  }

  lemma SignedPayloadOrder(w: Width, m: int, n: int)
    requires -Half(w) <= m < Half(w) && -Half(w) <= n < Half(w)
    ensures Less(Payload(Signed(w, m)), Payload(Signed(w, n))) <==> m < n
  {
    FlippedIsShifted(w, m);
    FlippedIsShifted(w, n);
    WidthBound(w);
    BigEndian.EncodeOrder(m + Half(w), n + Half(w), Size(w));
  }

  lemma UnsignedPayloadOrder(w: Width, m: int, n: int)
    requires 0 <= m < 2 * Half(w) && 0 <= n < 2 * Half(w)
    ensures Less(Payload(Unsigned(w, m)), Payload(Unsigned(w, n))) <==> m < n
  {
    WidthBound(w);
    BigEndian.EncodeOrder(m, n, Size(w));
  }

  lemma SameRank(a: Key, b: Key)
    requires !a.Uuid? && !b.Uuid? && Rank(a) == Rank(b)
    ensures a.Signed? ==> b.Signed? && a.width == b.width
    ensures a.Unsigned? ==> b.Unsigned? && a.width == b.width
    ensures a.Absent? ==> b.Absent?
    ensures a.Bool? ==> b.Bool?
    ensures a.Str? ==> b.Str?
    ensures a.Bytea? ==> b.Bytea?
  {
  }

  lemma PayloadOrder(a: Key, b: Key)
    requires !a.Uuid? && !b.Uuid? && Rank(a) == Rank(b)
    ensures Less(Payload(a), Payload(b)) <==> ValueLess(a, b)
  {
    SameRank(a, b);
    if a.Signed? {
      SignedPayloadOrder(a.width, a.n, b.n);
    } else if a.Unsigned? {
      UnsignedPayloadOrder(a.width, a.u, b.u);
    } else {
      assert !b.Signed? && !b.Unsigned?;
    }
  }

  /** Byte order of the encodings is key order. */
  lemma EncodeOrder(be: Backend, a: Key, b: Key)
    ensures Less(EncodeKey(be, a), EncodeKey(be, b)) <==> KeyLess(a, b)
  {
    var x, y := Canonical(a), Canonical(b);
    EncodeCanonical(be, a);
    EncodeCanonical(be, b);
    assert EncodeKey(be, x)[1..] == Payload(x) && EncodeKey(be, y)[1..] == Payload(y);
    if Rank(x) == Rank(y) {
      PayloadOrder(x, y);
    }
  }
}
