/** Cutting a text at a byte budget without cutting a character: `redact.Cap` and `keptLen`.
    Bytes are numbers 0..255; the encoding is UTF-8 as in section 3 of RFC 3629. */
module Utf8Cut {

  type Byte = b: int | 0 <= b < 256

  /** `utf8.RuneStart`: anything but a continuation byte 10xxxxxx. */
  predicate RuneStart(b: Byte) {
    b / 64 != 2
  }

  /** The octets of one character number, by the table of section 3 of RFC 3629. */
  function Encode(c: nat): (r: seq<Byte>)
    requires c <= 0x10FFFF
    ensures 1 <= |r| <= 4 && RuneStart(r[0]) && forall i :: 1 <= i < |r| ==> !RuneStart(r[i])
  {
    if c <= 0x7F then [c]
    else if c <= 0x7FF then [192 + c / 64, 128 + c % 64]
    else if c <= 0xFFFF then [224 + c / 4096, 128 + c / 64 % 64, 128 + c % 64]
    else [240 + c / 262144, 128 + c / 4096 % 64, 128 + c / 64 % 64, 128 + c % 64]
  }

  /** The character number of the octets, by the same table; the shortest form only. */
  function Decode(r: seq<Byte>): int {
    var at := (i: int) requires 0 <= i < |r| => r[i] as int;
    if |r| == 1 then at(0)
    else if |r| == 2 then (at(0) - 192) * 64 + (at(1) - 128)
    else if |r| == 3 then (at(0) - 224) * 4096 + (at(1) - 128) * 64 + (at(2) - 128)
    else if |r| == 4 then (at(0) - 240) * 262144 + (at(1) - 128) * 4096 + (at(2) - 128) * 64 + (at(3) - 128)
    else 0
  }

  /** The octets give the number back, and there are as many as the table says. */
  lemma EncodeExactly(c: nat)
    requires c <= 0x10FFFF
    ensures Decode(Encode(c)) == c
    ensures |Encode(c)| == if c < 0x80 then 1 else if c < 0x800 then 2 else if c < 0x10000 then 3 else 4
  {
    assert c / 64 / 64 == c / 4096 && c / 4096 / 64 == c / 262144;
    assert c == c / 64 * 64 + c % 64 && c / 64 == c / 4096 * 64 + c / 64 % 64;
    assert c / 4096 == c / 262144 * 64 + c / 4096 % 64;
  }

  type Char = c: nat | c <= 0x10FFFF

  function EncodeAll(cs: seq<Char>): seq<Byte> {
    if cs == [] then [] else Encode(cs[0]) + EncodeAll(cs[1..])
  }

  /** Where the cut falls when `cut` bytes may stay: walk back to a byte that starts a character. */
  function WalkBack(s: seq<Byte>, cut: nat): (k: nat)
    requires cut < |s|
    ensures k <= cut && (k == 0 || RuneStart(s[k]))
    ensures forall i :: k < i <= cut ==> !RuneStart(s[i])
  {
    if cut > 0 && !RuneStart(s[cut]) then WalkBack(s, cut - 1) else cut
  }

  /** How many bytes a cap of `n` leaves; a cap of zero or less is no cap. */
  function KeptSpec(s: seq<Byte>, n: int): (kept: nat)
    ensures kept <= |s| && (n > 0 ==> kept <= n)
  {
    if n <= 0 || |s| <= n then |s| else WalkBack(s, n)
  }

  /** `keptLen` */
  method KeptLen(s: seq<Byte>, n: int) returns (kept: nat)
    ensures kept == KeptSpec(s, n)
  {
    if n <= 0 || |s| <= n { return |s|; }
    var cut := n;
    while cut > 0 && !RuneStart(s[cut])
      invariant 0 <= cut <= n
      invariant WalkBack(s, cut) == WalkBack(s, n)
    {
      cut := cut - 1;
    }
    return cut;
  }

  /** The text ` …[truncated <k> bytes]` that says how much was cut. */
  function Digits(k: nat): (r: seq<Byte>)
    ensures |r| >= 1
  {
    if k < 10 then [48 + k] else Digits(k / 10) + [48 + k % 10]
  }

  /** The number that decimal digits write. */
  function Number(digits: seq<Byte>): int {
    if digits == [] then 0 else Number(digits[..|digits| - 1]) * 10 + (digits[|digits| - 1] as int - 48)
  }

  lemma {:induction false} DigitsExactly(k: nat)
    ensures Number(Digits(k)) == k && forall i :: 0 <= i < |Digits(k)| ==> 48 <= Digits(k)[i] <= 57
  {
    if k < 10 {
      assert Number([]) == 0;
    } else {
      DigitsExactly(k / 10);
      assert Digits(k)[..|Digits(k)| - 1] == Digits(k / 10);
    }
  }

  const MARK_HEAD: seq<Byte> := [32, 226, 128, 166, 91, 116, 114, 117, 110, 99, 97, 116, 101, 100, 32]
  const MARK_TAIL: seq<Byte> := [32, 98, 121, 116, 101, 115, 93]

  function Marker(k: nat): seq<Byte> {
    MARK_HEAD + Digits(k) + MARK_TAIL
  }

  /** `redact.Cap` */
  method Cap(s: seq<Byte>, capBytes: int) returns (r: seq<Byte>)
    ensures r == CapSpec(s, capBytes)
  {
    if capBytes <= 0 || |s| <= capBytes { return s; }
    var cut := capBytes;
    while cut > 0 && !RuneStart(s[cut])
      invariant 0 <= cut <= capBytes
      invariant WalkBack(s, cut) == WalkBack(s, capBytes)
    {
      cut := cut - 1;
    }
    return s[..cut] + Marker(|s| - cut);
  }

  function CapSpec(s: seq<Byte>, n: int): seq<Byte> {
    if n <= 0 || |s| <= n then s else s[..WalkBack(s, n)] + Marker(|s| - WalkBack(s, n))
  }

  /** `Cap` keeps exactly the bytes `keptLen` counts, and its marker names exactly the rest. */
  lemma CapCutsWhereKeptLenCounts(s: seq<Byte>, n: int)
    ensures s[..KeptSpec(s, n)] <= CapSpec(s, n)
    ensures CapSpec(s, n)[KeptSpec(s, n)..] == if KeptSpec(s, n) == |s| then [] else Marker(|s| - KeptSpec(s, n))
  {
    if n > 0 && |s| > n {
      var k := WalkBack(s, n);
      assert KeptSpec(s, n) == k < |s| && CapSpec(s, n) == s[..k] + Marker(|s| - k);
      CutAt(s[..k], Marker(|s| - k));
    } else {
      assert s[..|s|] == s && s[|s|..] == [];
    }
  }

  lemma CutAt(a: seq<Byte>, b: seq<Byte>)
    ensures a <= a + b && (a + b)[|a|..] == b
  {
  }

  lemma Regroup(a: seq<Byte>, b: seq<Byte>, c: seq<Byte>)
    ensures a + (b + c) == a + b + c
  {
  }

  /** A prefix of characters is a prefix of bytes. */
  lemma {:induction false} EncodePrefix(cs: seq<Char>, k: nat)
    requires k <= |cs|
    ensures EncodeAll(cs) == EncodeAll(cs[..k]) + EncodeAll(cs[k..])
  {
    if k > 0 {
      EncodePrefix(cs[1..], k - 1);
      assert cs[..k][0] == cs[0] && cs[..k][1..] == cs[1..][..k - 1] && cs[k..] == cs[1..][k - 1..];
      Regroup(Encode(cs[0]), EncodeAll(cs[1..][..k - 1]), EncodeAll(cs[k..]));
    } else {
      assert cs[0..] == cs;
    }
  }

  /** Every byte that starts a character is at a character boundary, and the other way round. */
  lemma {:induction false} StartIsBoundary(cs: seq<Char>, i: nat) returns (k: nat)
    requires i < |EncodeAll(cs)|
    ensures k < |cs| && |EncodeAll(cs[..k])| <= i < |EncodeAll(cs[..k + 1])|
    ensures RuneStart(EncodeAll(cs)[i]) <==> |EncodeAll(cs[..k])| == i
  {
    var head := Encode(cs[0]);
    if i < |head| {
      k := 0;
      assert cs[..1] == [cs[0]] && cs[..1][1..] == [];
    } else {
      var j := StartIsBoundary(cs[1..], i - |head|);
      k := j + 1;
      assert cs[..k][0] == cs[0] && cs[..k][1..] == cs[1..][..j];
      assert cs[..k + 1][0] == cs[0] && cs[..k + 1][1..] == cs[1..][..j + 1];
    }
  }

  lemma {:induction false} PrefixGrows(cs: seq<Char>, j: nat, k: nat)
    requires j < k <= |cs|
    ensures |EncodeAll(cs[..j])| < |EncodeAll(cs[..k])|
  {
    EncodePrefix(cs[..k], j);
    assert cs[..k][..j] == cs[..j];
    assert cs[..k][j..] != [];
  }

  /** The cut never splits a character: what stays of a UTF-8 text is the encoding of a prefix of its
      characters, and it is the longest one that fits the budget. */
  lemma CutIsLongestPrefix(cs: seq<Char>, n: int) returns (k: nat)
    requires n > 0
    ensures k <= |cs| && EncodeAll(cs)[..KeptSpec(EncodeAll(cs), n)] == EncodeAll(cs[..k])
    ensures |EncodeAll(cs[..k])| <= n && forall j :: k < j <= |cs| ==> |EncodeAll(cs[..j])| > n
  {
    var s := EncodeAll(cs);
    if |s| <= n {
      k := |cs|;
      assert cs[..k] == cs && s[..|s|] == s;
    } else {
      var cut := WalkBack(s, n);
      k := StartIsBoundary(cs, cut);
      EncodePrefix(cs, k);
      forall j | k < j <= |cs|
        ensures |EncodeAll(cs[..j])| > n
      {
        PrefixGrows(cs, k, j);
        BoundaryStarts(cs, j);
      }
    }
  }

  lemma BoundaryStarts(cs: seq<Char>, j: nat)
    requires j <= |cs|
    ensures var b := |EncodeAll(cs[..j])|; b <= |EncodeAll(cs)| && (b < |EncodeAll(cs)| ==> RuneStart(EncodeAll(cs)[b]))
  {
    EncodePrefix(cs, j);
    if j < |cs| {
      assert EncodeAll(cs[j..]) == Encode(cs[j]) + EncodeAll(cs[j..][1..]);
    } else {
      assert cs[..j] == cs;
    }
  }
}
