/** Bytes and field elements.  The conversion is written three times in the system:
    in the issuer, in the sanctions updater and in the dashboard. */
module Convert {
  import opened Arithmetic
  import opened Field
  import opened SparseTree
  import opened Text
  import opened Wrappers

  type Byte = x: nat | x < 256

  function Zeros(n: nat): (r: seq<Byte>)
    ensures |r| == n && forall i :: 0 <= i < n ==> r[i] == 0
  {
    seq(n, _ => 0)
  }

  function LeValue(bytes: seq<Byte>): nat {
    if bytes == [] then 0 else bytes[0] + 256 * LeValue(bytes[1..])
  }

  function LeBytes(x: nat, n: nat): (r: seq<Byte>)
    ensures |r| == n
  {
    if n == 0 then [] else [x % 256] + LeBytes(x / 256, n - 1)
  }

  function Reversed(s: seq<Byte>): (r: seq<Byte>)
    ensures |r| == |s| && forall i :: 0 <= i < |s| ==> r[i] == s[|s| - 1 - i]
  {
    if s == [] then [] else Reversed(s[1..]) + [s[0]]
  }

  function BeValue(bytes: seq<Byte>): nat { LeValue(Reversed(bytes)) }

  function FrToBytes(f: Fr): seq<Byte> { Reversed(LeBytes(f, 32)) }

  function BytesToFr(bytes: seq<Byte>): Fr { BeValue(bytes) % MODULUS }

  /** The reversal loop of `fr_to_bytes_be`, `bytes_be_to_fr` and `reverse_bytes`. */
  method ReverseBytes(src: seq<Byte>) returns (out: seq<Byte>)
    ensures out == Reversed(src)
  {
    var buffer := new Byte[|src|];
    for i := 0 to |src|
      invariant forall k :: 0 <= k < i ==> buffer[|src| - 1 - k] == src[k]
    {
      buffer[|src| - 1 - i] := src[i];
    }
    out := buffer[..];
    assert forall i :: 0 <= i < |src| ==> out[i] == buffer[|src| - 1 - (|src| - 1 - i)] == src[|src| - 1 - i];
  }

  /** The dashboard: mask, reverse, and add up the bytes shifted into place. */
  function Dashboard(wallet: seq<int>): nat {
    var be: seq<Byte> := seq(|wallet|, i requires 0 <= i < |wallet| => wallet[i] % 256);
    Reduce(Reversed(be), 0, 0) % MODULUS
  }

  function Shl(b: nat, n: nat): nat { b * Pow2(n) }

  function Reduce(le: seq<Byte>, i: nat, acc: nat): nat
    requires i <= |le|
    decreases |le| - i
  {
    if i == |le| then acc else Reduce(le, i + 1, acc + Shl(le[i], 8 * i))
  }

  // ------------------------------------------------------------------ lemmas

  lemma {:induction false} ReverseTwice(s: seq<Byte>)
    ensures Reversed(Reversed(s)) == s
  {
    assert forall i :: 0 <= i < |s| ==> Reversed(Reversed(s))[i] == Reversed(s)[|s| - 1 - i] == s[i];
  }

  lemma {:induction false} ReversedSnoc(s: seq<Byte>, b: Byte)
    ensures Reversed(s + [b]) == [b] + Reversed(s)
  {
  }

  /** Bytes are read big end first. */
  lemma BigEndian(bytes: seq<Byte>, b: Byte)
    ensures BeValue([]) == 0 && BeValue(bytes + [b]) == 256 * BeValue(bytes) + b
  {
    ReversedSnoc(bytes, b);
    assert ([b] + Reversed(bytes))[1..] == Reversed(bytes);
  }

  lemma {:induction false} BytesOfValue(bytes: seq<Byte>)
    ensures LeBytes(LeValue(bytes), |bytes|) == bytes
  {
    if bytes != [] {
      BytesOfValue(bytes[1..]);
      Quotient(LeValue(bytes), 256, LeValue(bytes[1..]), bytes[0]);
    }
  }

  function Pow256(n: nat): nat { if n == 0 then 1 else 256 * Pow256(n - 1) }

  lemma {:induction false} ValueOfBytes(x: nat, n: nat)
    requires x < Pow256(n)
    ensures LeValue(LeBytes(x, n)) == x
  {
    if n > 0 {
      ValueOfBytes(x / 256, n - 1);
    }
  }

  lemma FieldFitsIn32Bytes()
    ensures MODULUS < Pow256(32)
  {
    assert Pow256(8) == 0x1_0000_0000_0000_0000;
    assert Pow256(16) == 0x1_0000_0000_0000_0000_0000_0000_0000_0000;
    assert Pow256(24) == 0x1_0000_0000_0000_0000_0000_0000_0000_0000_0000_0000_0000_0000;
  }

  /** Byte `j` of the representation is the byte the key bits are picked from. */
  lemma {:induction false} LeBytesAt(x: nat, n: nat, j: nat)
    requires j < n
    ensures LeBytes(x, n)[j] == LeByte(x, j)
    decreases j
  {
    ShrByte(x);
    if j > 0 {
      LeBytesAt(x / 256, n - 1, j - 1);
      ShrAdd(x, 8, 8 * (j - 1));
    }
  }

  lemma ShrByte(x: nat)
    ensures Shr(x, 8) == x / 256
  {
    var a, b, c, d := x / 2, x / 4, x / 8, x / 16;
    assert a / 2 == b && b / 2 == c && c / 2 == d;
    var e, f, g := x / 32, x / 64, x / 128;
    assert d / 2 == e && e / 2 == f && f / 2 == g && g / 2 == x / 256;
    assert Shr(x, 8) == Shr(a, 7) == Shr(b, 6) == Shr(c, 5) == Shr(d, 4);
    assert Shr(d, 4) == Shr(e, 3) == Shr(f, 2) == Shr(g, 1) == Shr(x / 256, 0);
  }

  /** Encoding a field element and decoding it is the identity. */
  lemma FieldRoundTrip(f: Fr)
    ensures |FrToBytes(f)| == 32 && BytesToFr(FrToBytes(f)) == f
  {
    hide LeBytes, LeValue, Pow256, Reversed;
    FieldFitsIn32Bytes();
    ReverseTwice(LeBytes(f, 32));
    ValueOfBytes(f, 32);
  }

  /** Decoding 32 bytes and encoding the result is the identity exactly for the byte
      strings below the modulus. */
  lemma BytesRoundTripIff(bytes: seq<Byte>)
    requires |bytes| == 32
    ensures FrToBytes(BytesToFr(bytes)) == bytes <==> BeValue(bytes) < MODULUS
  {
    var v := BeValue(bytes);
    BytesOfValue(Reversed(bytes));
    ReverseTwice(bytes);
    assert v < MODULUS ==> v % MODULUS == v;
    if FrToBytes(BytesToFr(bytes)) == bytes {
      FieldRoundTrip(v % MODULUS);
      FieldFitsIn32Bytes();
      ReverseTwice(LeBytes(v % MODULUS, 32));
      ValueOfBytes(v % MODULUS, 32);
      assert v == v % MODULUS;
    }
  }

  lemma Pow2Byte(n: nat)
    ensures Pow2(n + 8) == 256 * Pow2(n)
  {
    assert Pow2(n + 8) == 2 * Pow2(n + 7) && Pow2(n + 7) == 2 * Pow2(n + 6);
    assert Pow2(n + 6) == 2 * Pow2(n + 5) && Pow2(n + 5) == 2 * Pow2(n + 4);
    assert Pow2(n + 4) == 2 * Pow2(n + 3) && Pow2(n + 3) == 2 * Pow2(n + 2);
    assert Pow2(n + 2) == 2 * Pow2(n + 1) && Pow2(n + 1) == 2 * Pow2(n);
  }

  lemma {:induction false} ReduceIsValue(le: seq<Byte>, i: nat, acc: nat)
    requires i <= |le|
    ensures Reduce(le, i, acc) == acc + Pow2(8 * i) * LeValue(le[i..])
    decreases |le| - i
  {
    if i == |le| {
      assert le[i..] == [];
    } else {
      ReduceIsValue(le, i + 1, acc + Shl(le[i], 8 * i));
      Pow2Byte(8 * i);
      assert le[i..][1..] == le[i + 1..];
      assert 8 * (i + 1) == 8 * i + 8;
      hide Pow2;
      Distribute(acc, le[i], Pow2(8 * i), LeValue(le[i + 1..]));
    }
  }

  lemma Distribute(acc: nat, b: nat, p: nat, rest: nat)
    ensures acc + b * p + (256 * p) * rest == acc + p * (b + 256 * rest)
  {
    assert p * (b + 256 * rest) == p * b + p * (256 * rest);
    assert p * (256 * rest) == (256 * p) * rest;
  }

  /** The dashboard's wallet value is the issuer's, for every 32-byte wallet and in fact
      for every byte string. */
  lemma DashboardAgrees(wallet: seq<Byte>)
    ensures Dashboard(wallet) == BytesToFr(wallet)
  {
    var be: seq<Byte> := seq(|wallet|, i requires 0 <= i < |wallet| => wallet[i] % 256);
    assert be == wallet;
    ReduceIsValue(Reversed(be), 0, 0);
    assert Reversed(be)[0..] == Reversed(be);
    assert Pow2(8 * 0) == 1;
  }

  // --------------------------------------------------------------------- hex

  function HexDigit(c: char): Option<nat> {
    if '0' <= c <= '9' then Some(c as int - '0' as int)
    else if 'a' <= c <= 'f' then Some(c as int - 'a' as int + 10)
    else if 'A' <= c <= 'F' then Some(c as int - 'A' as int + 10)
    else None
  }

  /** `hex::decode`. */
  function HexDecode(s: string): Option<seq<Byte>> {
    if s == [] then Some([])
    else if |s| == 1 || HexDigit(s[0]).None? || HexDigit(s[1]).None? then None
    else
      match HexDecode(s[2..])
      case None => None
      case Some(rest) => Some([(HexDigit(s[0]).value * 16 + HexDigit(s[1]).value) % 256] + rest)
  }

  function StripHexPrefix(s: string): string { if "0x" <= s then s[2..] else s }

  /** `wallet_hex_to_bytes`. */
  function WalletBytes(s: string): (r: Option<seq<Byte>>)
    ensures r.Some? ==> |r.value| == 32
  {
    match HexDecode(StripHexPrefix(s))
    case None => None
    case Some(bytes) => if |bytes| == 32 then Some(bytes) else None
  }

  /** `wallet_to_fr`. */
  function WalletToFr(s: string): Option<Fr> {
    match WalletBytes(s)
    case None => None
    case Some(bytes) => Some(BytesToFr(bytes))
  }

  function HexChar(d: nat): (c: char)
    requires d < 16
    ensures HexDigit(c) == Some(d) && c != 'x'
  {
    if d < 10 then ('0' as int + d) as char else ('a' as int + d - 10) as char
  }

  /** `hex::encode`. */
  function HexEncode(bytes: seq<Byte>): string {
    if bytes == [] then "" else [HexChar(bytes[0] / 16), HexChar(bytes[0] % 16)] + HexEncode(bytes[1..])
  }

  lemma {:induction false} HexRoundTrip(bytes: seq<Byte>)
    ensures HexDecode(HexEncode(bytes)) == Some(bytes)
  {
    if bytes != [] {
      HexRoundTrip(bytes[1..]);
      assert HexEncode(bytes)[2..] == HexEncode(bytes[1..]);
      assert bytes == [bytes[0]] + bytes[1..];
    }
  }

  predicate IsHex(c: char) { '0' <= c <= '9' || 'a' <= c <= 'f' || 'A' <= c <= 'F' }

  function Lower(c: char): char { if 'A' <= c <= 'F' then (c as int + 32) as char else c }

  function Lowered(s: string): (r: string)
    ensures |r| == |s| && forall i :: 0 <= i < |s| ==> r[i] == Lower(s[i])
  {
    if s == "" then "" else [Lower(s[0])] + Lowered(s[1..])
  }

  predicate AllHex(s: string) { forall i :: 0 <= i < |s| ==> IsHex(s[i]) }

  /** Exactly the texts that decode: an even number of hex digits of either case. */
  lemma {:induction false} HexDecodesIff(s: string)
    ensures HexDecode(s).Some? <==> |s| % 2 == 0 && AllHex(s)
    decreases |s|
  {
    if |s| >= 2 {
      HexDecodesIff(s[2..]);
      assert AllHex(s) <==> IsHex(s[0]) && IsHex(s[1]) && AllHex(s[2..]) by {
        assert forall i :: 2 <= i < |s| ==> s[i] == s[2..][i - 2];
      }
      hide AllHex;
    }
  }

  lemma LoweredStep(s: string)
    requires |s| >= 2
    ensures Lowered(s) == [Lower(s[0]), Lower(s[1])] + Lowered(s[2..])
  {
    hide Lower;
  }

  lemma HexEncodeStep(b: Byte, rest: seq<Byte>)
    ensures HexEncode([b] + rest) == [HexChar(b / 16), HexChar(b % 16)] + HexEncode(rest)
  {
    hide HexChar;
    assert ([b] + rest)[1..] == rest;
  }

  /** Decoding ignores case: what it yields encodes to the text in lower case. */
  lemma {:induction false} HexIgnoresCase(s: string)
    requires HexDecode(s).Some?
    ensures HexEncode(HexDecode(s).value) == Lowered(s)
    decreases |s|
  {
    hide HexDigit, HexChar, Lower, Lowered, HexEncode;
    if s == "" {
      NothingEncoded();
    } else {
      HexIgnoresCase(s[2..]);
      HexPair(s[0], s[1]);
      LoweredStep(s);
      HexEncodeStep(HexDigit(s[0]).value * 16 + HexDigit(s[1]).value, HexDecode(s[2..]).value);
    }
  }

  lemma NothingEncoded()
    ensures HexEncode([]) == "" && Lowered("") == ""
  {
  }

  lemma HexPair(a: char, b: char)
    requires HexDigit(a).Some? && HexDigit(b).Some?
    ensures var v := HexDigit(a).value * 16 + HexDigit(b).value;
            v < 256 && HexChar(v / 16) == Lower(a) && HexChar(v % 16) == Lower(b)
  {
  }

  /** A wallet's hex form is accepted with and without the 0x prefix; nothing but 32 bytes
      is. */
  lemma WalletHexRoundTrip(bytes: seq<Byte>)
    ensures WalletBytes(HexEncode(bytes)) == WalletBytes("0x" + HexEncode(bytes)) ==
            if |bytes| == 32 then Some(bytes) else None
  {
    HexRoundTrip(bytes);
    assert ("0x" + HexEncode(bytes))[2..] == HexEncode(bytes);
    assert !("0x" <= HexEncode(bytes)) by {
      if bytes != [] {
        assert HexEncode(bytes)[1] == HexChar(bytes[0] % 16);
      }
    }
  }
}
