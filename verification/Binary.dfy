/** What the CBOR and MessagePack codecs share: the output vector, checked reads and length checks. */
module Binary {
  import opened ByteStrings
  import opened Wrappers
  import opened Sequences
  import opened JsonValues
  import opened Floats

  /** No vector or string is longer than PTRDIFF_MAX. */
  const MAX_SIZE := 0x7fff_ffff_ffff_ffff
  const SIZE_T := 0x1_0000_0000_0000_0000

  /** `std::vector<uint8_t>& v`, to which the encoders append. */
  class ByteVector {
    var data: Bytes

    constructor ()
      ensures data == []
    {
      data := [];
    }

    method PushBack(b: Byte)
      modifies this
      ensures data == old(data) + [b]
    {
      data := data + [b];
    }

    method Append(s: Bytes)
      modifies this
      ensures data == old(data) + s
    {
      data := data + s;
    }

    /** `push_back((number >> 8 * i) & 0xff)` */
    method PushDigit(number: int, i: nat)
      modifies this
      ensures data + ToBigEndian(number, i) == old(data) + ToBigEndian(number, i + 1)
    {
      FirstDigit(number, i);
      Assoc(data, [number / Pow256(i) % 256], ToBigEndian(number, i));
      PushBack(number / Pow256(i) % 256);
    }

    /** `add_to_vector`: a switch that falls through from the wide cases to the narrow ones. */
    method AddToVector(bytes: nat, number: int)
      requires bytes == 1 || bytes == 2 || bytes == 4 || bytes == 8
      modifies this
      ensures data == old(data) + ToBigEndian(number, bytes)
    {
      if bytes == 8 {
        PushDigit(number, 7);
        PushDigit(number, 6);
        PushDigit(number, 5);
        PushDigit(number, 4);
      }
      if bytes >= 4 {
        PushDigit(number, 3);
        PushDigit(number, 2);
      }
      if bytes >= 2 {
        PushDigit(number, 1);
      }
      PushDigit(number, 0);
      RightUnit(data);
    }

    /** The bytes of a double: `helper[7 - i]`, from the most significant one of the little-endian memory. */
    method PushBits(bits: Bytes)
      modifies this
      ensures data == old(data) + bits
    {
      RightUnit(old(data));
      assert bits[..0] == [];
      for i := 0 to |bits|
        invariant data == old(data) + bits[..i]
      {
        TakeStep(bits, i);
        Assoc(old(data), bits[..i], [bits[i]]);
        PushBack(bits[i]);
      }
      assert bits[..|bits|] == bits;
    }
  }

  /** The most significant of `i + 1` bytes. */
  lemma {:induction false} FirstDigit(n: int, i: nat)
    ensures ToBigEndian(n, i + 1) == [n / Pow256(i) % 256] + ToBigEndian(n, i)
    decreases i
  {
    if i == 0 {
      LeftUnit([n % 256]);
      RightUnit([n % 256]);
    } else {
      FirstDigit(n / 256, i - 1);
      DivDiv(n, Pow256(i - 1));
      Assoc([n / Pow256(i) % 256], ToBigEndian(n / 256, i - 1), [n % 256]);
    }
  }

  lemma Powers()
    ensures Pow256(0) == 1 && Pow256(1) == 0x100 && Pow256(2) == 0x1_0000 && Pow256(3) == 0x100_0000
    ensures Pow256(4) == 0x1_0000_0000 && Pow256(5) == 0x100_0000_0000 && Pow256(6) == 0x1_0000_0000_0000
    ensures Pow256(7) == 0x100_0000_0000_0000 && Pow256(8) == 0x1_0000_0000_0000_0000
  {}

  // ---------- reading ----------

  /** 2^log bytes. */
  function Width(log: nat): (k: nat)
    ensures k == 1 || k == 2 || k == 4 || k == 8
  {
    if log == 0 then 1 else if log == 1 then 2 else if log == 2 then 4 else 8
  }

  /** `get_from_vector`: the `k` bytes after the current one, as a big-endian number. */
  function GetFromVector(v: Bytes, current: nat, k: nat): (r: Result<nat>)
    ensures r.Ok? ==> current + k + 1 <= |v| && r.value < Pow256(k)
  {
    if current + k + 1 > |v| then Err(OutOfRange)
    else
      var bytes := v[current + 1..current + 1 + k];
      Ok(FromBigEndian(bytes))
  }

  lemma ReadsBack(v: Bytes, current: nat, n: int, k: nat)
    requires Holds(v, current + 1, ToBigEndian(n, k))
    ensures GetFromVector(v, current, k) == Ok(n % Pow256(k))
  {
    FromToBigEndian(n, k);
  }

  /** The number that little-endian memory holds. */
  function FromMemory(b: Bytes): nat
  {
    if b == [] then 0 else
    var low: nat := FromMemory(b[..|b| - 1]);
    var high: nat := b[|b| - 1];
    low + high * Pow256(|b| - 1)
  }

  /** The copy loop of `get_from_vector`: the last byte goes to the lowest address. */
  method GetFromVectorLoop(v: Bytes, current: nat, k: nat) returns (r: Result<nat>)
    ensures r == GetFromVector(v, current, k)
  {
    if current + k + 1 > |v| {
      return Err(OutOfRange);
    }
    var memory: Bytes := [];
    ghost var bytes := v[current + 1..current + 1 + k];
    assert bytes[..k] == bytes;
    for i := 0 to k
      invariant |memory| == i
      invariant FromBigEndian(bytes[..k - i]) * Pow256(i) + FromMemory(memory) == FromBigEndian(bytes)
    {
      CopyByte(bytes, k - i, memory);
      memory := memory + [v[current + k - i]];
    }
    r := Ok(FromMemory(memory));
  }

  lemma CopyByte(bytes: Bytes, n: nat, memory: Bytes)
    requires 0 < n <= |bytes|
    ensures FromBigEndian(bytes[..n - 1]) * Pow256(|memory| + 1) + FromMemory(memory + [bytes[n - 1]])
         == FromBigEndian(bytes[..n]) * Pow256(|memory|) + FromMemory(memory)
  {
    hide FromBigEndian, FromMemory;
    LastDigit(bytes, n);
    MemoryAppend(memory, bytes[n - 1]);
    Horner(FromBigEndian(bytes[..n - 1]), bytes[n - 1], Pow256(|memory|));
  }

  lemma LastDigit(bytes: Bytes, n: nat)
    requires 0 < n <= |bytes|
    ensures FromBigEndian(bytes[..n]) == FromBigEndian(bytes[..n - 1]) * 256 + bytes[n - 1]
  {
    TakeTake(bytes, n, n - 1);
  }

  lemma MemoryAppend(memory: Bytes, c: Byte)
    ensures FromMemory(memory + [c]) == FromMemory(memory) + c * Pow256(|memory|)
  {
    assert (memory + [c])[..|memory|] == memory;
  }

  lemma Horner(x: int, b: int, p: nat)
    ensures x * (256 * p) + b * p == (x * 256 + b) * p
  {}

  /** `check_length`, with its guard against an offset that would overflow. */
  function CheckLength(size: nat, len: nat, offset: nat): Result<()>
  {
    if len > size || offset > size then Err(OutOfRange)
    else if size > SIZE_T - 1 - offset then Err(OutOfRange)
    else if len + offset > size then Err(OutOfRange)
    else Ok(())
  }

  /** What a decoding function found and the index after it. */
  datatype Read<+T> = Read(value: T, next: nat)

  /** `idx += k`, which wraps. */
  function Advance(idx: nat, k: nat): nat
  {
    (idx + k) % SIZE_T
  }

  /** The bytes of a string: `idx` moves before the length is checked. */
  function ReadString(v: Bytes, offset: nat, len: nat): (r: Result<Read<Bytes>>)
    requires offset <= |v| <= MAX_SIZE
    ensures r.Ok? ==> r.value.next == offset + len <= |v|
    ensures offset + len <= |v| ==> r == Ok(Read(v[offset..offset + len], offset + len))
    ensures offset + len > |v| ==> r == Err(OutOfRange)
  {
    var next := Advance(offset, len);
    var _ :- CheckLength(|v|, len, offset);
    Ok(Read(v[offset..offset + len], next))
  }

  /** The bytes of a double or a float, copied one by one with `v.at`. */
  function ReadBits(v: Bytes, current: nat, k: nat): (r: Result<Read<Bytes>>)
    requires current < |v|
    ensures r.Ok? ==> |r.value.value| == k && r.value.next == current + 1 + k <= |v|
  {
    if current + 1 + k > |v| then Err(OutOfRange)
    else Ok(Read(v[current + 1..current + 1 + k], current + 1 + k))
  }

  /** A number that is not finite becomes null. */
  function FromDouble(bits: Bytes): Json
    requires |bits| == 8
  {
    if FiniteBits(bits) then Float(bits) else Null
  }

  /** Single precision: one sign bit, eight of exponent and 23 of fraction. */
  function FromSingle(bits: Bytes): Json
    requires |bits| == 4
  {
    var n := FromBigEndian(bits);
    var negative, e, m := n >= 0x8000_0000, n / 0x80_0000 % 256, n % 0x80_0000;
    if e == 255 then Null
    else if e == 0 then Float(Widen(negative, m, -149))
    else Float(Widen(negative, m + 0x80_0000, e - 150))
  }

  /** `std::string s = j`: null gives the empty string and a boolean its name. */
  function AsString(j: Json): Result<Bytes>
  {
    match j
    case Str(s) => Ok(s)
    case Null => Ok([])
    case Bool(b) => Ok(if b then TRUE_WORD else FALSE_WORD)
    case _ => Err(DomainError)
  }

  lemma StringExtends(v: Bytes, w: Bytes, offset: nat, len: nat)
    requires offset <= |v| && |v + w| <= MAX_SIZE
    ensures ReadString(v, offset, len) == Err(OutOfRange)
      || ReadString(v + w, offset, len) == ReadString(v, offset, len)
  {
    if offset + len <= |v| {
      SliceOfConcat(v, w, offset, offset + len);
    }
  }

  /** A step of the decoder did what its function says; after an exception the index is of no interest. */
  ghost predicate Agrees<T>(spec: Result<Read<T>>, r: Result<T>, idx: nat)
  {
    match spec
    case Ok(x) => r == Ok(x.value) && idx == x.next
    case Err(e) => r == Err(e)
  }
}
