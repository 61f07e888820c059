/** base64 with the URL-safe alphabet (RFC 4648, section 5). */
module Base64 {
  import opened ByteStrings
  import opened Sequences
  import opened Decimals
  import opened Literals

  const PAD: Byte := 0x3d
  const UINT32 := 0x1_0000_0000

  /** `base64_chars[n]` */
  function Char(n: nat): Byte
    requires n < 64
  {
    if n < 26 then 0x41 + n else if n < 52 then 0x61 + (n - 26) else if n < 62 then ZERO + (n - 52)
    else if n == 62 then 0x2d else 0x5f
  }

  const ALPHABET := "ABCDEFGHIJKLMNOPQRSTUVWXYZ" + "abcdefghijklmnopqrstuvwxyz" + "0123456789" + "-_"

  /** The characters of the alphabet. */
  lemma AlphabetIs(n: nat)
    requires n < 64
    ensures |ALPHABET| == 64 && Char(n) == ALPHABET[n] as int
  {
    UpperCase(n);
    LowerCase(n);
  }

  lemma UpperCase(n: nat)
    ensures n < 26 ==> "ABCDEFGHIJKLMNOPQRSTUVWXYZ"[n] as int == 0x41 + n
  {}

  lemma LowerCase(n: nat)
    ensures 26 <= n < 52 ==> "abcdefghijklmnopqrstuvwxyz"[n - 26] as int == 0x61 + (n - 26)
  {}

  /** `is_base64`, in the C locale. */
  predicate IsBase64(c: Byte)
  {
    0x41 <= c <= 0x5a || 0x61 <= c <= 0x7a || IsDigit(c) || c == 0x2d || c == 0x5f
  }

  /** `base64_chars.find(c)`, stored in an unsigned char: npos becomes 0xff. */
  function Find(c: Byte, from: nat := 0): (n: Byte)
    requires from <= 64
    ensures n == 0xff || (from <= n < 64 && Char(n) == c)
    decreases 64 - from
  {
    if from == 64 then 0xff else if Char(from) == c then from else Find(c, from + 1)
  }

  lemma {:induction false} FindFrom(n: nat, from: nat)
    requires from <= n < 64
    ensures Find(Char(n), from) == n
    decreases 64 - from
  {
    if from < n {
      FindFrom(n, from + 1);
    }
  }

  lemma FindsChar(n: nat)
    requires n < 64
    ensures Find(Char(n)) == n && IsBase64(Char(n))
  {
    FindFrom(n, 0);
  }

  lemma EveryCharIsFound(c: Byte)
    requires IsBase64(c)
    ensures Find(c) < 64
  {
    var n := if c == 0x2d then 62 else if c == 0x5f then 63 else if c <= 0x39 then c + 4
      else if c <= 0x5a then c - 0x41 else c - 0x47;
    assert Char(n) == c;
    FindsChar(n);
  }

  // ---------- groups ----------

  /** The four sextets of three bytes. */
  function Sextets(a: int, b: int, c: int): (r: seq<nat>)
    requires 0 <= a < 256 && 0 <= b < 256 && 0 <= c < 256
    ensures |r| == 4 && forall i :: 0 <= i < 4 ==> r[i] < 64
  {
    [a / 4, a % 4 * 16 + b / 16, b % 16 * 4 + c / 64, c % 64]
  }

  /** The sextets are the base-64 digits of the 24-bit number that the bytes form (RFC 4648, section 4). */
  lemma SextetsAreDigits(a: Byte, b: Byte, c: Byte)
    ensures var q := Sextets(a, b, c); ((q[0] * 64 + q[1]) * 64 + q[2]) * 64 + q[3] == (a * 256 + b) * 256 + c
  {
    DivModUnique(a, 4, a / 4, a % 4);
    DivModUnique(b, 16, b / 16, b % 16);
    DivModUnique(c, 64, c / 64, c % 64);
  }

  /** The three bytes of four sextets; as in the source, each is computed in an unsigned char. */
  function Octets(w: int, x: int, y: int, z: int): (r: Bytes)
    requires 0 <= w && 0 <= x && 0 <= y && 0 <= z
    ensures |r| == 3
  {
    [(w * 4 + x / 16 % 4) % 256, (x % 16 * 16 + y / 4 % 16) % 256, (y % 4 * 64 + z) % 256]
  }

  lemma OctetsOfSextets(a: Byte, b: Byte, c: Byte)
    ensures var q := Sextets(a, b, c); Octets(q[0], q[1], q[2], q[3]) == [a, b, c]
  {
    hide Octets;
    var q := Sextets(a, b, c);
    JoinedFirst(a, b);
    JoinedSecond(a % 4, b, c);
    JoinedThird(b % 16, c);
    OctetsAre(q[0], q[1], q[2], q[3], a, b, c);
  }

  lemma OctetsAre(w: nat, x: nat, y: nat, z: nat, a: Byte, b: Byte, c: Byte)
    requires (w * 4 + x / 16 % 4) % 256 == a && (x % 16 * 16 + y / 4 % 16) % 256 == b && (y % 4 * 64 + z) % 256 == c
    ensures Octets(w, x, y, z) == [a, b, c]
  {}

  lemma JoinedFirst(a: int, b: int)
    requires 0 <= a < 256 && 0 <= b < 256
    ensures (a / 4 * 4 + (a % 4 * 16 + b / 16) / 16 % 4) % 256 == a
  {
    DivModUnique(a % 4 * 16 + b / 16, 16, a % 4, b / 16);
  }

  lemma JoinedSecond(x: int, b: int, c: int)
    requires 0 <= b < 256 && 0 <= c < 256
    ensures ((x * 16 + b / 16) % 16 * 16 + (b % 16 * 4 + c / 64) / 4 % 16) % 256 == b
  {
    DivModUnique(b % 16 * 4 + c / 64, 4, b % 16, c / 64);
    DivModUnique(x * 16 + b / 16, 16, x, b / 16);
  }

  lemma JoinedThird(x: int, c: int)
    requires 0 <= c < 256
    ensures ((x * 4 + c / 64) % 4 * 64 + c % 64) % 256 == c
  {
    DivModUnique(x * 4 + c / 64, 4, x, c / 64);
  }

  /** The first byte needs two sextets and the second one three. */
  lemma OctetsDependOnFew(w: nat, x: nat, y: nat, z: nat, y': nat, z': nat)
    ensures Octets(w, x, y, z)[0] == Octets(w, x, y', z')[0]
    ensures Octets(w, x, y, z)[1] == Octets(w, x, y, z')[1]
  {}

  function Chars(q: seq<nat>): (r: Bytes)
    requires forall i :: 0 <= i < |q| ==> q[i] < 64
    ensures |r| == |q| && forall i :: 0 <= i < |q| ==> r[i] == Char(q[i])
  {
    if q == [] then [] else Chars(q[..|q| - 1]) + [Char(q[|q| - 1])]
  }

  // ---------- encoding and decoding ----------

  /** The characters without padding. */
  function Body(s: Bytes): Bytes
  {
    if s == [] then []
    else if |s| == 1 then Chars(Sextets(s[0], 0, 0)[..2])
    else if |s| == 2 then Chars(Sextets(s[0], s[1], 0)[..3])
    else Chars(Sextets(s[0], s[1], s[2])) + Body(s[3..])
  }

  function Padding(n: nat): Bytes
  {
    if n % 3 == 1 then [PAD, PAD] else if n % 3 == 2 then [PAD] else []
  }

  /** `base64_encode` */
  function Encode(s: Bytes): Bytes
  {
    Body(s) + Padding(|s|)
  }

  /** The characters in front of the first one that is not in the alphabet. */
  function Leading(e: Bytes): (p: Bytes)
    ensures p <= e
    ensures forall i :: 0 <= i < |p| ==> IsBase64(p[i])
  {
    if e != [] && IsBase64(e[0]) then [e[0]] + Leading(e[1..]) else []
  }

  /** Four characters give three bytes; what is left over, one less than its characters. */
  function DecodeGroups(p: Bytes): Bytes
  {
    if |p| >= 4 then Octets(Find(p[0]), Find(p[1]), Find(p[2]), Find(p[3])) + DecodeGroups(p[4..])
    else if |p| == 3 then Octets(Find(p[0]), Find(p[1]), Find(p[2]), 0)[..2]
    else if |p| == 2 then Octets(Find(p[0]), Find(p[1]), 0, 0)[..1]
    else []
  }

  /** `base64_decode` */
  function Decode(e: Bytes): Bytes
  {
    DecodeGroups(Leading(e))
  }

  lemma CharsAreFound(a: Byte, b: Byte, c: Byte)
    ensures var q := Sextets(a, b, c);
      Find(Char(q[0])) == q[0] && Find(Char(q[1])) == q[1] && Find(Char(q[2])) == q[2] && Find(Char(q[3])) == q[3]
  {
    var q := Sextets(a, b, c);
    FindsChar(q[0]);
    FindsChar(q[1]);
    FindsChar(q[2]);
    FindsChar(q[3]);
  }

  lemma {:induction false} GroupsOfBody(s: Bytes)
    ensures DecodeGroups(Body(s)) == s
    decreases |s|
  {
    hide Char, Find, Octets;
    if s != [] {
      var a: Byte, b: Byte, c: Byte := s[0], if |s| > 1 then s[1] else 0, if |s| > 2 then s[2] else 0;
      CharsAreFound(a, b, c);
      OctetsOfSextets(a, b, c);
      if |s| >= 3 {
        var chars := Chars(Sextets(a, b, c));
        GroupsOfBody(s[3..]);
        PartsOfConcat(chars, Body(s[3..]));
        FourAndRest(chars, Body(s[3..]));
        assert s == [s[0], s[1], s[2]] + s[3..];
      } else {
        var q := Sextets(a, b, c);
        OctetsDependOnFew(q[0], q[1], q[2], q[3], 0, 0);
        assert s == [a, b, c][..|s|];
      }
    }
  }

  lemma FourAndRest(p: Bytes, rest: Bytes)
    requires |p| == 4
    ensures DecodeGroups(p + rest) == Octets(Find(p[0]), Find(p[1]), Find(p[2]), Find(p[3])) + DecodeGroups(rest)
  {
    hide Char, Find, Octets;
    PartsOfConcat(p, rest);
  }

  predicate AllBase64(p: Bytes)
  {
    forall i | 0 <= i < |p| :: IsBase64(p[i])
  }

  lemma {:induction false} BodyIsBase64(s: Bytes)
    ensures AllBase64(Body(s))
    decreases |s|
  {
    hide Find;
    if |s| >= 3 {
      BodyIsBase64(s[3..]);
      assert forall n :: 0 <= n < 64 ==> IsBase64(Char(n));
    }
  }

  lemma {:induction false} LeadingStops(p: Bytes, t: Bytes)
    requires AllBase64(p) && (t == [] || !IsBase64(t[0]))
    ensures Leading(p + t) == p
  {
    if p == [] {
      LeftUnit(t);
    } else {
      LeadingStops(p[1..], t);
      ConcatHead(p, t);
      HeadTail(p);
    }
  }

  /** Decoding gives the bytes back, with padding, without it, or with anything that is not in the alphabet behind. */
  lemma RoundTrip(s: Bytes, t: Bytes)
    requires t == [] || !IsBase64(t[0])
    ensures Decode(Body(s) + t) == s
    ensures Decode(Body(s)) == s && Decode(Encode(s)) == s
  {
    BodyIsBase64(s);
    GroupsOfBody(s);
    LeadingStops(Body(s), t);
    LeadingStops(Body(s), Padding(|s|));
    LeadingStops(Body(s), []);
    RightUnit(Body(s));
  }

  /** Four characters for every three bytes that are begun. */
  lemma {:induction false} EncodedLength(s: Bytes)
    ensures |Encode(s)| == (|s| + 2) / 3 * 4
    decreases |s|
  {
    hide Chars, Sextets;
    if |s| >= 3 {
      EncodedLength(s[3..]);
      assert (|s| - 3) % 3 == |s| % 3;
    }
  }

  // ---------- the loops ----------

  /** Three bytes in the one array become four sextets in the other. */
  method Spread(three: array<Byte>, four: array<Byte>)
    requires three.Length == 3 && four.Length == 4 && three != four
    modifies four
    ensures four[..] == Sextets(three[0], three[1], three[2])
  {
    four[0] := three[0] / 4;
    four[1] := three[0] % 4 * 16 + three[1] / 16;
    four[2] := three[1] % 16 * 4 + three[2] / 64;
    four[3] := three[2] % 64;
  }

  /** Appends the characters of the first `n` sextets. */
  method AppendChars(ret: Bytes, four: array<Byte>, n: nat) returns (r: Bytes)
    requires four.Length == 4 && n <= 4 && forall k :: 0 <= k < n ==> four[k] < 64
    ensures r == ret + Chars(four[..n])
  {
    r := ret;
    RightUnit(ret);
    assert four[..0] == [];
    for j := 0 to n
      invariant r == ret + Chars(four[..j])
    {
      TakeStep(four[..n], j);
      TakeTake(four[..], n, j);
      assert four[..j + 1] == four[..j] + [four[j]];
      Assoc(ret, Chars(four[..j]), [Char(four[j])]);
      r := r + [Char(four[j])];
    }
  }

  /** A byte that is waiting in the array and those that are still to come. */
  lemma Waiting(before: Bytes, s: Bytes, p: nat)
    requires p < |s|
    ensures before + s[p..] == before + [s[p]] + s[p + 1..]
  {
    DropStep(s, p);
    Assoc(before, [s[p]], s[p + 1..]);
  }

  lemma NothingWaits(left: Bytes, s: Bytes, p: nat)
    requires p == |s|
    ensures left + s[p..] == left
  {}

  lemma StoreAt(a: array<Byte>, i: nat, before: Bytes, c: Byte)
    requires i < a.Length && a[..i] == before && a[i] == c
    ensures a[..i + 1] == before + [c]
  {}

  /** Writes a full array of three bytes. */
  method EncodeThree(ret: Bytes, three: array<Byte>, four: array<Byte>, ghost rest: Bytes) returns (r: Bytes)
    requires three.Length == 3 && four.Length == 4 && three != four
    modifies four
    ensures r + Body([] + rest) == ret + Body(three[..3] + rest)
  {
    hide Chars, Sextets, Body;
    Spread(three, four);
    assert three[..3] == three[..] && four[..4] == four[..];
    BodyOfThree(three[..], rest);
    Assoc(ret, Chars(four[..]), Body(rest));
    LeftUnit(rest);
    r := AppendChars(ret, four, 4);
  }

  /** Writes what is left over, and the padding. */
  method EncodeRest(ret: Bytes, three: array<Byte>, four: array<Byte>, n: nat) returns (r: Bytes)
    requires three.Length == 3 && four.Length == 4 && three != four && 1 <= n <= 2
    modifies three, four
    ensures r == ret + Body(old(three[..n])) + Padding(n)
  {
    hide Chars, Sextets, Body;
    ghost var left := three[..n];
    for j := n to 3
      invariant three[..n] == left
      invariant forall k :: n <= k < j ==> three[k] == 0
    {
      three[j] := 0;
    }
    Spread(three, four);
    assert three[..][..n] == left && four[..n + 1] == four[..][..n + 1];
    BodyOfRest(left, three[..], four[..]);
    r := AppendChars(ret, four, n + 1);
    ghost var body := r;
    var i := n;
    while i < 3
      invariant n <= i <= 3 && r + Padding(i) == body + Padding(n)
    {
      Assoc(r, [PAD], Padding(i + 1));
      assert [PAD] + Padding(i + 1) == Padding(i);
      r := r + [PAD];
      i := i + 1;
    }
    RightUnit(r);
  }

  /** `base64_encode(bytes, in_len)`: an array of three bytes is filled and emptied. */
  method EncodeLoop(bytes: Bytes, inLen: nat) returns (ret: Bytes)
    requires inLen <= |bytes|
    ensures ret == Encode(bytes[..inLen])
  {
    hide Body, Padding, Chars, Sextets;
    ghost var s := bytes[..inLen];
    var three, four := new Byte[3], new Byte[4];
    var i, p := 0, 0;
    ghost var groups := 0;
    ret := [];
    LeftUnit(Body(s));
    assert three[..0] + s[0..] == s;
    while p < inLen
      invariant 0 <= i < 3 && p <= inLen && p == 3 * groups + i
      invariant ret + Body(three[..i] + s[p..]) == Body(s)
    {
      ghost var before := three[..i];
      Waiting(before, s, p);
      three[i] := bytes[p];
      StoreAt(three, i, before, s[p]);
      i, p := i + 1, p + 1;
      if i == 3 {
        ret := EncodeThree(ret, three, four, s[p..]);
        i, groups := 0, groups + 1;
        assert three[..0] == [];
      }
    }
    NothingWaits(three[..i], s, p);
    DivModUnique(|s|, 3, groups, i);
    PaddingByRest(|s|, i);
    if i != 0 {
      ret := EncodeRest(ret, three, four, i);
    } else {
      assert three[..0] == [];
      EmptyBody();
      RightUnit(ret);
    }
  }

  lemma PaddingByRest(n: nat, i: nat)
    requires n % 3 == i
    ensures Padding(n) == Padding(i) && (i == 0 ==> Padding(n) == [])
  {}

  lemma EmptyBody()
    ensures Body([]) == []
  {}

  lemma BodyOfThree(p: Bytes, rest: Bytes)
    requires |p| == 3
    ensures Body(p + rest) == Chars(Sextets(p[0], p[1], p[2])) + Body(rest)
  {
    hide Chars, Sextets;
    PartsOfConcat(p, rest);
  }

  lemma BodyOfRest(left: Bytes, three: Bytes, four: seq<nat>)
    requires |three| == 3 && (|left| == 1 || |left| == 2) && three[..|left|] == left
    requires forall k :: |left| <= k < 3 ==> three[k] == 0
    requires four == Sextets(three[0], three[1], three[2])
    ensures Body(left) == Chars(four[..|left| + 1])
  {
    hide Chars;
    assert left[0] == three[0];
    if |left| == 2 {
      assert left[1] == three[1];
    }
  }

  /** `base64_encode(s)`: the length is passed as an unsigned int. */
  method EncodeString(s: Bytes) returns (r: Bytes)
    ensures r == Encode(s[..|s| % UINT32])
    ensures |s| < UINT32 ==> r == Encode(s)
  {
    r := EncodeLoop(s, |s| % UINT32);
    if |s| < UINT32 {
      SmallMod(|s|, UINT32);
      assert s[..|s|] == s;
    }
  }

  /** Looks every character up, and joins the four sextets to three bytes. */
  method Join(four: array<Byte>, three: array<Byte>)
    requires three.Length == 3 && four.Length == 4 && three != four
    modifies four, three
    ensures forall k :: 0 <= k < 4 ==> four[k] == Find(old(four[k]))
    ensures three[..] == Octets(Find(old(four[0])), Find(old(four[1])), Find(old(four[2])), Find(old(four[3])))
  {
    hide Find, Char;
    for i := 0 to 4
      invariant forall k :: 0 <= k < i ==> four[k] == Find(old(four[k]))
      invariant forall k :: i <= k < 4 ==> four[k] == old(four[k])
    {
      four[i] := Find(four[i]);
    }
    var w: int, x: int, y: int, z: int := four[0], four[1], four[2], four[3];
    three[0] := (w * 4 + x / 16 % 4) % 256;
    three[1] := (x % 16 * 16 + y / 4 % 16) % 256;
    three[2] := (y % 4 * 64 + z) % 256;
  }

  /** Joins a full array of four characters. */
  method DecodeFour(ret: Bytes, four: array<Byte>, three: array<Byte>, ghost rest: Bytes) returns (r: Bytes)
    requires three.Length == 3 && four.Length == 4 && three != four
    modifies four, three
    ensures r + DecodeGroups([] + rest) == ret + DecodeGroups(old(four[..4]) + rest)
  {
    hide Find, Octets, DecodeGroups;
    assert four[..4] == four[..];
    FourAndRest(four[..], rest);
    Join(four, three);
    Assoc(ret, three[..], DecodeGroups(rest));
    LeftUnit(rest);
    r := ret + three[..];
  }

  /** Joins what is left over; the array is filled up with zero bytes, which `find` does not find. */
  method DecodeRest(ret: Bytes, four: array<Byte>, three: array<Byte>, n: nat) returns (r: Bytes)
    requires three.Length == 3 && four.Length == 4 && three != four && 1 <= n <= 3
    modifies four, three
    ensures r == ret + DecodeGroups(old(four[..n]))
  {
    hide Find, Octets, DecodeGroups;
    ghost var left := four[..n];
    for j := n to 4
      invariant four[..n] == left
    {
      four[j] := 0;
    }
    ghost var all := four[..];
    assert all[..n] == left && all == [four[0], four[1], four[2], four[3]];
    Join(four, three);
    OctetsOfRest(left, all);
    ghost var octets := three[..];
    RightUnit(ret);
    r := ret;
    for j := 0 to n - 1
      invariant three[..] == octets && r == ret + octets[..j]
    {
      TakeStep(octets, j);
      Assoc(ret, octets[..j], [octets[j]]);
      r := r + [three[j]];
    }
  }

  /** `base64_decode`: an array of four characters is filled and emptied. */
  method DecodeLoop(e: Bytes) returns (ret: Bytes)
    requires |e| <= INT32_MAX
    ensures ret == Decode(e)
  {
    hide DecodeGroups;
    ghost var p := Leading(e);
    var four, three := new Byte[4], new Byte[3];
    var inLen: int, i, pos := |e|, 0, 0;
    ret := [];
    LeftUnit(DecodeGroups(p));
    assert four[..0] + p == p && e[0..] == e;
    while inLen != 0 && e[pos] != PAD && IsBase64(e[pos])
      invariant 0 <= i < 4 && pos <= |e| && inLen == |e| - pos
      invariant ret + DecodeGroups(four[..i] + Leading(e[pos..])) == DecodeGroups(p)
      decreases inLen
    {
      ghost var before, rest := four[..i], Leading(e[pos + 1..]);
      DropStep(e, pos);
      Assoc(before, [e[pos]], rest);
      four[i] := e[pos];
      StoreAt(four, i, before, e[pos]);
      i, pos, inLen := i + 1, pos + 1, inLen - 1;
      if i == 4 {
        ret := DecodeFour(ret, four, three, rest);
        i := 0;
        assert four[..0] == [];
      }
    }
    assert Leading(e[pos..]) == [];
    RightUnit(four[..i]);
    if i != 0 {
      ret := DecodeRest(ret, four, three, i);
    } else {
      assert four[..0] == [];
      NoGroups();
      RightUnit(ret);
    }
  }

  lemma NoGroups()
    ensures DecodeGroups([]) == []
  {}

  /** What stands behind the characters that were read does not show in the bytes that are taken. */
  lemma OctetsOfRest(left: Bytes, all: Bytes)
    requires |all| == 4 && 1 <= |left| <= 3 && left == all[..|left|]
    ensures DecodeGroups(left) == Octets(Find(all[0]), Find(all[1]), Find(all[2]), Find(all[3]))[..|left| - 1]
  {
    hide Find, Octets;
    assert left[0] == all[0];
    if |left| == 1 {
      assert Octets(Find(all[0]), Find(all[1]), Find(all[2]), Find(all[3]))[..0] == [];
    } else if |left| == 2 {
      assert left[1] == all[1];
      FirstOctet(Find(all[0]), Find(all[1]), Find(all[2]), Find(all[3]));
    } else if |left| == 3 {
      assert left[1] == all[1] && left[2] == all[2];
      FirstTwoOctets(Find(all[0]), Find(all[1]), Find(all[2]), Find(all[3]));
    }
  }

  lemma FirstOctet(w: nat, x: nat, y: nat, z: nat)
    ensures Octets(w, x, y, z)[..1] == Octets(w, x, 0, 0)[..1]
  {
    OctetsDependOnFew(w, x, y, z, 0, 0);
  }

  lemma FirstTwoOctets(w: nat, x: nat, y: nat, z: nat)
    ensures Octets(w, x, y, z)[..2] == Octets(w, x, y, 0)[..2]
  {
    OctetsDependOnFew(w, x, y, z, 0, 0);
  }

  // ---------- what is decoded ----------

  predicate Position(c: Byte, n: nat)
  {
    n < |ALPHABET| && c == ALPHABET[n] as int
  }

  lemma PositionIsFound(c: Byte, n: nat)
    requires Position(c, n)
    ensures n < 64 && Find(c) == n && IsBase64(c)
  {
    AlphabetIs(n);
    FindsChar(n);
  }

  /** The first three bytes, the first two and the first one as numbers. */
  predicate StartsWith3(r: Bytes, n: int)
  {
    |r| >= 3 && (r[0] as int * 256 + r[1]) * 256 + r[2] == n
  }

  predicate Is2(r: Bytes, n: int)
  {
    |r| == 2 && r[0] as int * 256 + r[1] == n
  }

  predicate Is1(r: Bytes, n: int)
  {
    |r| == 1 && r[0] == n
  }

  /** The six bits of the middle sextets fall apart into two and four, and into four and two. */
  lemma OctetsOfParts(w: nat, x: nat, xs: nat, y: nat, ys: nat, z: nat)
    requires w < 64 && x < 4 && xs < 16 && y < 16 && ys < 4 && z < 64
    ensures Octets(w, x * 16 + xs, y * 4 + ys, z) == [w * 4 + x, xs * 16 + y, ys * 64 + z]
  {
    DivModUnique(x * 16 + xs, 16, x, xs);
    DivModUnique(y * 4 + ys, 4, y, ys);
  }

  lemma OctetsAreDigits(w: nat, x: nat, y: nat, z: nat)
    requires w < 64 && x < 64 && y < 64 && z < 64
    ensures var r := Octets(w, x, y, z);
      && StartsWith3(r, ((w * 64 + x) * 64 + y) * 64 + z)
      && Is2(r[..2], ((w * 64 + x) * 64 + y) / 4)
      && Is1(r[..1], (w * 64 + x) / 16)
  {
    hide Octets;
    var a, b, c, d := x / 16, x % 16, y / 4, y % 4;
    OctetsOfParts(w, a, b, c, d, z);
    Quotients(w, a, b, c, d);
  }

  lemma Quotients(w: nat, x: nat, xs: nat, y: nat, ys: nat)
    requires xs < 16 && ys < 4
    ensures ((w * 64 + (x * 16 + xs)) * 64 + (y * 4 + ys)) / 4 == (w * 4 + x) * 256 + (xs * 16 + y)
    ensures (w * 64 + (x * 16 + xs)) / 16 == w * 4 + x
  {
    DivModUnique((w * 64 + (x * 16 + xs)) * 64 + (y * 4 + ys), 4, (w * 4 + x) * 256 + (xs * 16 + y), ys);
    DivModUnique(w * 64 + (x * 16 + xs), 16, w * 4 + x, xs);
  }

  lemma LeadingStep(e: Bytes)
    requires e != [] && IsBase64(e[0])
    ensures Leading(e) == [e[0]] + Leading(e[1..])
  {}

  lemma LeadingFour(p: Bytes)
    requires |p| >= 4 && IsBase64(p[0]) && IsBase64(p[1]) && IsBase64(p[2]) && IsBase64(p[3])
    ensures Leading(p) == [p[0], p[1], p[2], p[3]] + Leading(p[4..])
  {
    hide IsBase64, Leading;
    LeadingStep(p);
    LeadingStep(p[1..]);
    DropDrop(p, 1, 1);
    LeadingStep(p[2..]);
    DropDrop(p, 2, 1);
    LeadingStep(p[3..]);
    DropDrop(p, 3, 1);
  }

  /** Four characters are decoded to the three bytes of the number whose base-64 digits they are, and so on. */
  lemma FourCharacters(p: Bytes, w: nat, x: nat, y: nat, z: nat)
    requires |p| >= 4 && Position(p[0], w) && Position(p[1], x) && Position(p[2], y) && Position(p[3], z)
    ensures StartsWith3(Decode(p), ((w * 64 + x) * 64 + y) * 64 + z) && Decode(p)[3..] == Decode(p[4..])
  {
    hide Position, Find, Octets, IsBase64, Leading;
    PositionIsFound(p[0], w);
    PositionIsFound(p[1], x);
    PositionIsFound(p[2], y);
    PositionIsFound(p[3], z);
    LeadingFour(p);
    FourAndRest([p[0], p[1], p[2], p[3]], Leading(p[4..]));
    OctetsAreDigits(w, x, y, z);
    PartsOfConcat(Octets(w, x, y, z), DecodeGroups(Leading(p[4..])));
  }

  /** What is left over: three characters give the first two of these bytes, two give one, and one gives nothing. */
  lemma FewerCharacters(p: Bytes, rest: Bytes, w: nat, x: nat, y: nat)
    requires |p| < 4 && (rest == [] || !IsBase64(rest[0]))
    requires (|p| > 0 ==> Position(p[0], w)) && (|p| > 1 ==> Position(p[1], x)) && (|p| > 2 ==> Position(p[2], y))
    ensures |p| == 3 ==> Is2(Decode(p + rest), ((w * 64 + x) * 64 + y) / 4)
    ensures |p| == 2 ==> Is1(Decode(p + rest), (w * 64 + x) / 16)
    ensures |p| < 2 ==> Decode(p + rest) == []
  {
    hide Position, Find, Octets, IsBase64, Leading;
    if |p| > 0 {
      PositionIsFound(p[0], w);
    }
    if |p| > 1 {
      PositionIsFound(p[1], x);
    }
    if |p| > 2 {
      PositionIsFound(p[2], y);
    }
    LeadingStops(p, rest);
    if |p| == 3 {
      OctetsAreDigits(w, x, y, 0);
    } else if |p| == 2 {
      OctetsAreDigits(w, x, 0, 0);
    }
  }

  // ---------- what is encoded ----------

  /** The characters are those of the base-64 digits. */
  predicate AreChars(e: Bytes, q: seq<nat>)
  {
    |e| == |q| && forall i | 0 <= i < |q| :: Position(e[i], q[i])
  }

  lemma CharsArePositions(q: seq<nat>)
    requires forall i :: 0 <= i < |q| ==> q[i] < 64
    ensures AreChars(Chars(q), q)
  {
    hide Char;
    forall i | 0 <= i < |q|
      ensures Position(Chars(q)[i], q[i])
    {
      AlphabetIs(q[i]);
    }
  }

  /** Three bytes are encoded as the four base-64 digits of their number, and so on. */
  lemma ThreeBytes(s: Bytes)
    requires |s| >= 3
    ensures exists w: nat, x: nat, y: nat, z: nat ::
      && AreChars(Encode(s)[..4], [w, x, y, z])
      && StartsWith3(s, ((w * 64 + x) * 64 + y) * 64 + z)
      && Encode(s)[4..] == Encode(s[3..])
  {
    hide Char, AreChars, Padding;
    var q := Sextets(s[0], s[1], s[2]);
    SextetsAreDigits(s[0], s[1], s[2]);
    CharsArePositions(q);
    assert q == [q[0], q[1], q[2], q[3]];
    Assoc(Chars(q), Body(s[3..]), Padding(|s|));
    PartsOfConcat(Chars(q), Body(s[3..]) + Padding(|s|));
    SamePadding(|s|);
    assert AreChars(Encode(s)[..4], [q[0], q[1], q[2], q[3]]);
  }

  lemma SamePadding(n: nat)
    requires n >= 3
    ensures Padding(n) == Padding(n - 3)
  {}

  /** What is left over: bits that no byte fills are zero, and equals signs fill the group. */
  lemma FewerBytes(s: Bytes)
    requires 0 < |s| < 3
    ensures |s| == 1 ==> exists w: nat, x: nat ::
      && AreChars(Encode(s)[..2], [w, x]) && Spells(Encode(s)[2..], "==")
      && s[0] as int * 16 == w * 64 + x
    ensures |s| == 2 ==> exists w: nat, x: nat, y: nat ::
      && AreChars(Encode(s)[..3], [w, x, y]) && Spells(Encode(s)[3..], "=")
      && (s[0] as int * 256 + s[1]) * 4 == (w * 64 + x) * 64 + y
  {
    hide Char, AreChars;
    if |s| == 1 {
      var q := Sextets(s[0], 0, 0);
      CharsArePositions(q[..2]);
      assert q[..2] == [q[0], q[1]];
      PartsOfConcat(Chars(q[..2]), Padding(1));
      DivModUnique(s[0], 4, s[0] / 4, s[0] % 4);
      assert AreChars(Encode(s)[..2], [q[0], q[1]]);
    } else {
      var q := Sextets(s[0], s[1], 0);
      SextetsAreDigits(s[0], s[1], 0);
      CharsArePositions(q[..3]);
      assert q[..3] == [q[0], q[1], q[2]];
      PartsOfConcat(Chars(q[..3]), Padding(2));
      assert AreChars(Encode(s)[..3], [q[0], q[1], q[2]]);
    }
  }
}
