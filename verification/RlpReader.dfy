/**
  Class RLP: reading an encoded item. Every function takes the bytes that an
  RLP object refers to; Err is a thrown exception.
 */
module RlpReader {
  import opened Prelude
  import opened BigEndian
  import opened RlpFormat

  datatype Error = BadRLP | UndersizeRLP | OversizeRLP | BadCast

  predicate IsNull(d: Bytes) {
    d == []
  }

  predicate IsData(d: Bytes) {
    !IsNull(d) && d[0] < LIST_START
  }

  predicate IsList(d: Bytes) {
    !IsNull(d) && d[0] >= LIST_START
  }

  predicate IsSingleByte(d: Bytes) {
    !IsNull(d) && d[0] < DATA_IMM_LEN_START
  }

  /** False when the source throws: a single byte below 0x80 must not be written in two bytes. */
  predicate Good(d: Bytes) {
    !IsNull(d) && (d[0] == DATA_IMM_LEN_START + 1 ==> |d| >= 2 && d[1] >= DATA_IMM_LEN_START)
  }

  /** The length field of the long forms: size bytes after the first. */
  function LongLength(d: Bytes, size: nat, least: nat): Result<nat, Error> {
    if |d| <= size then Err(BadRLP)
    else if |d| > 1 && d[1] == 0 then Err(BadRLP)
    else if size > 8 then Err(UndersizeRLP)
    else
      var ret := Value(d[1..1 + size]);
      if ret < least then Err(BadRLP)
      else if ret >= SIZE - 1 - 0x100 then Err(UndersizeRLP)
      else Ok(ret)
  }

  /** The size of the payload, as the header says. */
  function Length(d: Bytes): Result<nat, Error> {
    if IsNull(d) then Ok(0)
    else if !Good(d) then Err(BadRLP)
    else
      var n := d[0];
      if n < DATA_IMM_LEN_START then Ok(1)
      else if n <= DATA_IND_LEN_ZERO then Ok(n - DATA_IMM_LEN_START)
      else if n < LIST_START then
        LongLength(d, n - DATA_IND_LEN_ZERO, LIST_START - DATA_IMM_LEN_START - MAX_LENGTH_BYTES)
      else if n <= LIST_IND_LEN_ZERO then Ok(n - LIST_START)
      else LongLength(d, n - LIST_IND_LEN_ZERO, 0x100 - LIST_START - MAX_LENGTH_BYTES)
  }

  function LengthSize(d: Bytes): nat {
    if IsData(d) && d[0] > DATA_IND_LEN_ZERO then d[0] - DATA_IND_LEN_ZERO
    else if IsList(d) && d[0] > LIST_IND_LEN_ZERO then d[0] - LIST_IND_LEN_ZERO
    else 0
  }

  function PayloadOffset(d: Bytes): nat {
    if IsSingleByte(d) then 0 else 1 + LengthSize(d)
  }

  /** The size of the item that starts d; d may be longer or shorter. */
  function ActualSize(d: Bytes): (r: Result<nat, Error>)
    ensures r.Ok? && d != [] ==> r.value > 0
  {
    if IsNull(d) then Ok(0)
    else if IsSingleByte(d) then Ok(1)
    else
      var length :- Length(d);
      Ok(PayloadOffset(d) + length)
  }

  /** The constructor with FailIfTooSmall, and the size it found. */
  function SizeAsEncoded(d: Bytes): (r: Result<nat, Error>)
    ensures r.Ok? ==> r.value <= |d|
    ensures r.Ok? && d != [] ==> r.value > 0
  {
    var size :- ActualSize(d);
    if size > |d| then Err(UndersizeRLP) else Ok(size)
  }

  /** The constructor with VeryStrict: None when it throws nothing. */
  function Construct(d: Bytes): Option<Error> {
    match ActualSize(d)
    case Err(e) => Some(e)
    case Ok(size) => if size < |d| then Some(OversizeRLP) else if size > |d| then Some(UndersizeRLP) else None
  }

  function Payload(d: Bytes): Result<Bytes, Error> {
    var length :- Length(d);
    if length > |d| then Err(BadRLP) else Ok(Cropped(d, PayloadOffset(d), length))
  }

  /** The item in d, every level of it constructed strictly. */
  function Decode(d: Bytes): Result<Item, Error>
    decreases |d|, 0
  {
    match Construct(d)
    case Some(e) => Err(e)
    case None =>
      if IsNull(d) then Err(BadCast)
      else
        var payload :- Payload(d);
        if IsData(d) then Ok(Data(payload))
        else
          var items :- DecodeAll(payload);
          Ok(List(items))
  }

  /** The items that follow each other in a payload. */
  function DecodeAll(p: Bytes): Result<seq<Item>, Error>
    decreases |p|, 1
  {
    if p == [] then Ok([])
    else
      var size :- SizeAsEncoded(p);
      var first :- Decode(p[..size]);
      var rest :- DecodeAll(p[size..]);
      Ok([first] + rest)
  }

  const LIMIT: nat := SIZE - 1 - 0x100

  function PayloadLength(x: Item): nat {
    match x
    case Data(b) => |b|
    case List(xs) => EncodedLengths(xs)
  }

  /** Reading back the header that Head writes, whatever follows it. */
  lemma HeadRead(base: Byte, n: nat, rest: Bytes)
    requires base == DATA_IMM_LEN_START || base == LIST_START
    requires n < SIZE
    requires base == DATA_IMM_LEN_START && n == 1 ==> rest != [] && rest[0] >= DATA_IMM_LEN_START
    ensures var d := Head(base, n) + rest;
            && Length(d) == (if n < LIMIT then Ok(n) else Err(UndersizeRLP))
            && PayloadOffset(d) == HeadLength(n)
            && (IsList(d) <==> base == LIST_START) && !IsSingleByte(d)
  {
    LengthBytes(n);
    var d := Head(base, n) + rest;
    if n >= IMM_LEN_COUNT {
      ValueCompact(n);
      assert d[1..1 + |Compact(n)|] == Compact(n);
    }
  }

  /** The size found does not depend on what follows the item. */
  lemma SizeOfPrefix(d: Bytes)
    requires SizeAsEncoded(d).Ok?
    ensures ActualSize(d[..SizeAsEncoded(d).value]) == SizeAsEncoded(d)
    ensures Construct(d[..SizeAsEncoded(d).value]) == None
  {
    var size := SizeAsEncoded(d).value;
    var e := d[..size];
    if d != [] && !IsSingleByte(d) && LengthSize(d) > 0 {
      assert e[1..1 + LengthSize(d)] == d[1..1 + LengthSize(d)];
    }
  }

  /** Bytes that start with a header are sized, and their payload is found. */
  lemma HeadedItem(base: Byte, payload: Bytes, more: Bytes)
    requires base == DATA_IMM_LEN_START || base == LIST_START
    requires |payload| < SIZE
    requires base == DATA_IMM_LEN_START && |payload| == 1 ==> payload[0] >= DATA_IMM_LEN_START
    ensures var d := Head(base, |payload|) + payload + more;
            && ActualSize(d) == (if |payload| < LIMIT then Ok(HeadLength(|payload|) + |payload|) else Err(UndersizeRLP))
            && (|payload| < LIMIT ==> Payload(d) == Ok(payload))
            && (IsList(d) <==> base == LIST_START)
  {
    var head := Head(base, |payload|);
    var d := head + payload + more;
    HeadRead(base, |payload|, payload + more);
    assert d == head + (payload + more);
    assert d[|head|..|head| + |payload|] == payload;
  }

  /** d starts with an item: its size, its payload and its kind are read off. */
  ghost predicate Reads(d: Bytes, size: nat, payload: Bytes, list: bool) {
    && ActualSize(d) == (if |payload| < LIMIT then Ok(size) else Err(UndersizeRLP))
    && (|payload| < LIMIT ==> Payload(d) == Ok(payload))
    && (IsList(d) <==> list)
  }

  function PayloadOf(x: Item): Bytes
    requires Encodable(x)
  {
    match x
    case Data(b) => b
    case List(xs) => EncodeAll(xs)
  }

  lemma DataReads(b: Bytes, more: Bytes)
    requires |b| < SIZE
    ensures Reads(EncodeData(b) + more, |EncodeData(b)|, b, false)
  {
    if |b| == 1 && b[0] < DATA_IMM_LEN_START {
      assert (b + more)[0..1] == b;
    } else {
      HeadedItem(DATA_IMM_LEN_START, b, more);
    }
  }

  lemma ListReads(payload: Bytes, more: Bytes)
    requires |payload| < SIZE
    ensures Reads(EncodeList(payload) + more, |EncodeList(payload)|, payload, true)
  {
    HeadedItem(LIST_START, payload, more);
  }

  /** The size, the payload and the kind of an encoded item are found whatever follows it. */
  lemma EncodedItem(x: Item, more: Bytes)
    requires Encodable(x)
    ensures Reads(Encode(x) + more, EncodedLength(x), PayloadOf(x), x.List?)
  {
    match x
    case Data(b) => DataReads(b, more);
    case List(xs) => ListReads(EncodeAll(xs), more);
  }

  lemma {:induction false} ElementLength(xs: seq<Item>, i: nat)
    requires i < |xs|
    ensures PayloadLength(xs[i]) <= EncodedLength(xs[i]) <= EncodedLengths(xs)
  {
    if i == 0 {
    } else {
      ElementLength(xs[1..], i - 1);
    }
  }

  /** Decoding an encoding returns the item, exactly when its payload is below the limit of the reader. */
  lemma {:induction false} DecodeEncode(x: Item)
    requires Encodable(x)
    ensures Decode(Encode(x)) == if PayloadLength(x) < LIMIT then Ok(x) else Err(UndersizeRLP)
    decreases x, 0
  {
    EncodedItem(x, []);
    assert Encode(x) + [] == Encode(x);
    if PayloadLength(x) < LIMIT && x.List? {
      DecodeEncodeAll(x.items);
    }
  }

  /** One item, and the items that follow it. */
  lemma DecodeAllCons(first: Bytes, rest: Bytes)
    requires first != [] && SizeAsEncoded(first + rest) == Ok(|first|) && Decode(first).Ok? && DecodeAll(rest).Ok?
    ensures DecodeAll(first + rest) == Ok([Decode(first).value] + DecodeAll(rest).value)
  {
    assert (first + rest)[..|first|] == first && (first + rest)[|first|..] == rest;
  }

  lemma {:induction false} DecodeEncodeAll(xs: seq<Item>)
    requires AllEncodable(xs) && EncodedLengths(xs) < LIMIT
    ensures DecodeAll(EncodeAll(xs)) == Ok(xs)
    decreases xs, 1
  {
    if xs == [] {
    } else {
      var first, rest := Encode(xs[0]), EncodeAll(xs[1..]);
      ElementLength(xs, 0);
      EncodedItem(xs[0], rest);
      assert xs == [xs[0]] + xs[1..];
      DecodeEncode(xs[0]);
      DecodeEncodeAll(xs[1..]);
      DecodeAllCons(first, rest);
    }
  }

  /** Bytes behind an encoding make it too long. */
  lemma TooLong(x: Item, more: Bytes)
    requires Encodable(x) && PayloadLength(x) < LIMIT && more != []
    ensures Construct(Encode(x) + more) == Some(OversizeRLP)
  {
    EncodedItem(x, more);
  }

  lemma CutInHeader(base: Byte, n: nat, p: nat)
    requires (base == DATA_IMM_LEN_START || base == LIST_START) && n < SIZE && 0 < p < HeadLength(n)
    ensures Construct(Head(base, n)[..p]) == Some(BadRLP)
  {
    LengthBytes(n);
  }

  lemma CutInPayload(base: Byte, n: nat, part: Bytes)
    requires (base == DATA_IMM_LEN_START || base == LIST_START) && |part| < n < LIMIT
    ensures Construct(Head(base, n) + part)
         == Some(if base == DATA_IMM_LEN_START && n == 1 then BadRLP else UndersizeRLP)
  {
    if base == DATA_IMM_LEN_START && n == 1 {
      assert Head(base, n) + part == [base + 1];
    } else {
      CutHeadRead(base, n, part);
    }
  }

  lemma CutHeadRead(base: Byte, n: nat, part: Bytes)
    requires (base == DATA_IMM_LEN_START || base == LIST_START) && |part| < n < LIMIT
    requires base == DATA_IMM_LEN_START ==> n != 1
    ensures Construct(Head(base, n) + part) == Some(UndersizeRLP)
  {
    HeadRead(base, n, part);
  }

  /** An encoding cut inside its header, or a single byte cut from it, is bad; cut later it is too short. */
  lemma CutShort(x: Item, p: nat)
    requires Encodable(x) && PayloadLength(x) < LIMIT && 0 < p < |Encode(x)|
    ensures Construct(Encode(x)[..p])
         == Some(if p < HeadLength(PayloadLength(x)) || (x.Data? && |x.data| == 1) then BadRLP else UndersizeRLP)
  {
    var n, payload := PayloadLength(x), PayloadOf(x);
    var base := if x.List? then LIST_START else DATA_IMM_LEN_START;
    var head := Head(base, n);
    assert Encode(x) == head + payload;
    if p < |head| {
      assert Encode(x)[..p] == head[..p];
      CutInHeader(base, n, p);
    } else {
      assert Encode(x)[..p] == head + payload[..p - |head|];
      CutInPayload(base, n, payload[..p - |head|]);
    }
  }

  /** A header that Length accepts is the one that Head writes. */
  lemma HeadWritten(d: Bytes)
    requires !IsNull(d) && !IsSingleByte(d) && Length(d).Ok? && PayloadOffset(d) <= |d|
    ensures Length(d).value < LIMIT
    ensures d[..PayloadOffset(d)] == Head(if IsList(d) then LIST_START else DATA_IMM_LEN_START, Length(d).value)
  {
    var n := Length(d).value;
    if LengthSize(d) > 0 {
      var field := d[1..1 + LengthSize(d)];
      assert field[0] == d[1] != 0;
      CompactValue(field);
      assert d[..PayloadOffset(d)] == [d[0]] + field;
    }
  }

  /** Strictly sized bytes end with their payload. */
  lemma StrictParts(d: Bytes, payload: Bytes, off: nat)
    requires Construct(d) == None && !IsNull(d) && !IsSingleByte(d) && Payload(d) == Ok(payload)
    requires off == PayloadOffset(d)
    ensures off + |payload| == |d| && payload == d[off..] && Length(d) == Ok(|payload|)
    ensures |payload| == 1 && !IsList(d) ==> payload[0] >= DATA_IMM_LEN_START
  {
    assert d[off..off + Length(d).value] == d[off..];
  }

  /** Strictly sized bytes are the header of their payload and the payload. */
  lemma StrictlySized(d: Bytes, payload: Bytes)
    requires Construct(d) == None && !IsNull(d) && Payload(d) == Ok(payload)
    ensures |payload| < SIZE
    ensures d == if IsList(d) then EncodeList(payload) else EncodeData(payload)
  {
    if IsSingleByte(d) {
      assert d[0..1] == d;
    } else {
      var off := PayloadOffset(d);
      StrictParts(d, payload, off);
      HeadWritten(d);
      TakeDrop(d, off);
    }
  }

  /** What is accepted strictly at every level is the encoding of what was read. */
  lemma {:induction false} EncodeDecode(d: Bytes, x: Item)
    requires Decode(d) == Ok(x)
    ensures Encodable(x) && Encode(x) == d
    decreases |d|, 0
  {
    var payload := Payload(d).value;
    StrictlySized(d, payload);
    if x.List? {
      EncodeDecodeAll(payload, x.items);
    }
  }

  lemma DecodeAllParts(p: Bytes, xs: seq<Item>) returns (size: nat, first: Item, rest: seq<Item>)
    requires DecodeAll(p) == Ok(xs) && p != []
    ensures 0 < size <= |p| && Decode(p[..size]) == Ok(first) && DecodeAll(p[size..]) == Ok(rest)
    ensures xs == [first] + rest
  {
    size := SizeAsEncoded(p).value;
    first, rest := Decode(p[..size]).value, DecodeAll(p[size..]).value;
  }

  lemma {:induction false} EncodeDecodeAll(p: Bytes, xs: seq<Item>)
    requires DecodeAll(p) == Ok(xs)
    ensures AllEncodable(xs) && EncodeAll(xs) == p
    decreases |p|, 1
  {
    if p == [] {
    } else {
      var size, first, rest := DecodeAllParts(p, xs);
      EncodeDecode(p[..size], first);
      EncodeDecodeAll(p[size..], rest);
      EncodeAllCons(first, rest);
      TakeDrop(p, size);
    }
  }

  /** A header tells its kind and its length, whatever follows it. */
  lemma HeadUnique(base: Byte, n: nat, p: Bytes, base': Byte, m: nat, q: Bytes)
    requires base in {DATA_IMM_LEN_START, LIST_START} && base' in {DATA_IMM_LEN_START, LIST_START}
    requires n < SIZE && m < SIZE && Head(base, n) + p == Head(base', m) + q
    ensures base == base' && n == m && p == q
  {
    var d := Head(base, n) + p;
    LengthBytes(n);
    LengthBytes(m);
    assert d[0] == Head(base, n)[0] == Head(base', m)[0];
    TakeAppend(Head(base, n), p);
    TakeAppend(Head(base', m), q);
    assert HeadLength(n) == HeadLength(m);
    if n >= IMM_LEN_COUNT {
      assert Compact(n) == Head(base, n)[1..] == Head(base', m)[1..] == Compact(m);
      ValueCompact(n);
      ValueCompact(m);
    }
  }

  lemma HeadedUnique(base: Byte, b: Bytes, p: Bytes, base': Byte, c: Bytes, q: Bytes)
    requires base in {DATA_IMM_LEN_START, LIST_START} && base' in {DATA_IMM_LEN_START, LIST_START}
    requires |b| < SIZE && |c| < SIZE && Head(base, |b|) + b + p == Head(base', |c|) + c + q
    ensures base == base' && b == c && p == q
  {
    AppendAssoc(Head(base, |b|), b, p);
    AppendAssoc(Head(base', |c|), c, q);
    HeadUnique(base, |b|, b + p, base', |c|, c + q);
    TakeAppend(b, p);
    TakeAppend(c, q);
  }

  /** The first byte of an encoding is below 0x80 exactly when it is all of the encoding. */
  lemma SingleByte(x: Item, p: Bytes)
    requires Encodable(x)
    ensures (Encode(x) + p)[0] < DATA_IMM_LEN_START <==> x.Data? && |x.data| == 1 && x.data[0] < DATA_IMM_LEN_START
  {
    LengthBytes(if x.Data? then |x.data| else EncodedLengths(x.items));
  }

  /** No encoding is the beginning of another one, and no two items have the same encoding. */
  lemma {:induction false} EncodingsUnique(x: Item, p: Bytes, y: Item, q: Bytes)
    requires Encodable(x) && Encodable(y) && Encode(x) + p == Encode(y) + q
    ensures x == y && p == q
    decreases x, 0
  {
    SingleByte(x, p);
    SingleByte(y, q);
    if (Encode(x) + p)[0] < DATA_IMM_LEN_START {
      TakeAppend(x.data, p);
      TakeAppend(y.data, q);
    } else {
      HeadedUnique(if x.List? then LIST_START else DATA_IMM_LEN_START, PayloadOf(x), p,
                   if y.List? then LIST_START else DATA_IMM_LEN_START, PayloadOf(y), q);
      if x.List? {
        ListEncodingsUnique(x.items, y.items);
      }
    }
  }

  lemma {:induction false} ListEncodingsUnique(xs: seq<Item>, ys: seq<Item>)
    requires AllEncodable(xs) && AllEncodable(ys) && EncodeAll(xs) == EncodeAll(ys)
    ensures xs == ys
    decreases xs, 1
  {
    if xs != [] && ys != [] {
      assert xs == [xs[0]] + xs[1..] && ys == [ys[0]] + ys[1..];
      EncodingsUnique(xs[0], EncodeAll(xs[1..]), ys[0], EncodeAll(ys[1..]));
      ListEncodingsUnique(xs[1..], ys[1..]);
    }
  }

  /** Exactly the encodings of items below the limit are accepted. */
  lemma AcceptedExactly(d: Bytes)
    ensures Decode(d).Ok? <==> exists x :: Encodable(x) && PayloadLength(x) < LIMIT && Encode(x) == d
  {
    if Decode(d).Ok? {
      var x := Decode(d).value;
      EncodeDecode(d, x);
      DecodeEncode(x);
      assert PayloadLength(x) < LIMIT;
    }
    if x :| Encodable(x) && PayloadLength(x) < LIMIT && Encode(x) == d {
      DecodeEncode(x);
    }
  }

  /** isInt: data without a leading zero; zero itself is the empty string. */
  function IsInt(d: Bytes): Result<bool, Error> {
    if IsNull(d) then Ok(false)
    else if !Good(d) then Err(BadRLP)
    else if d[0] < DATA_IMM_LEN_START then Ok(d[0] != 0)
    else if d[0] == DATA_IMM_LEN_START then Ok(true)
    else if d[0] <= DATA_IND_LEN_ZERO then if |d| <= 1 then Err(BadRLP) else Ok(d[1] != 0)
    else if d[0] < LIST_START then
      var first := 1 + d[0] - DATA_IND_LEN_ZERO;
      if |d| <= first then Err(BadRLP) else Ok(d[first] != 0)
    else Ok(false)
  }

  /** toInt with Strict, into a type of maxSize bytes. */
  function ToInt(d: Bytes, maxSize: nat): Result<nat, Error> {
    if !Good(d) then Err(BadRLP)
    else
      var isInt :- IsInt(d);
      if !isInt || IsList(d) then Err(BadCast)
      else
        var payload :- Payload(d);
        if |payload| > maxSize then Err(BadCast) else Ok(Value(payload))
  }

  lemma DataIsInt(b: Bytes)
    requires |b| < SIZE && (b != [] ==> b[0] != 0)
    ensures Good(EncodeData(b)) && IsInt(EncodeData(b)) == Ok(true) && !IsList(EncodeData(b))
  {
    LengthBytes(|b|);
    var d := EncodeData(b);
    if |b| >= IMM_LEN_COUNT {
      assert d[1 + |Compact(|b|)|] == b[0];
    }
  }

  lemma BytesToInt(b: Bytes, maxSize: nat)
    requires |b| < LIMIT && (b != [] ==> b[0] != 0)
    ensures ToInt(EncodeData(b), maxSize) == if |b| <= maxSize then Ok(Value(b)) else Err(BadCast)
  {
    DataIsInt(b);
    DataReads(b, []);
    assert EncodeData(b) + [] == EncodeData(b);
  }

  /** A number is read back from its encoding, exactly when the type is wide enough. */
  lemma IntRoundTrip(i: nat, b: Bytes, maxSize: nat)
    requires b == Compact(i) && |b| < LIMIT
    ensures ToInt(EncodeData(b), maxSize) == if i < Pow256(maxSize) then Ok(i) else Err(BadCast)
  {
    ValueCompact(i);
    CompactLength(i, maxSize);
    BytesToInt(b, maxSize);
  }

  /** A list, or data with a leading zero, is not a number. */
  lemma NotANumber(x: Item, maxSize: nat)
    requires Encodable(x) && PayloadLength(x) < LIMIT && (x.List? || (x.data != [] && x.data[0] == 0))
    ensures ToInt(Encode(x), maxSize) == Err(BadCast)
  {
    LengthBytes(PayloadLength(x));
    var d := Encode(x);
    if x.Data? && |x.data| >= IMM_LEN_COUNT {
      assert d[1 + |Compact(|x.data|)|] == x.data[0];
    }
  }

  /** A strictly sized item that reads as a number is the encoding of that number. */
  lemma IntCanonical(d: Bytes, maxSize: nat)
    requires Construct(d) == None && ToInt(d, maxSize).Ok?
    ensures var i := ToInt(d, maxSize).value; |Compact(i)| < SIZE && d == EncodeData(Compact(i))
  {
    var payload := Payload(d).value;
    StrictlySized(d, payload);
    assert payload != [] ==> payload[0] != 0;
    CompactValue(payload);
  }
}
