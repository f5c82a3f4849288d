/**
 Machine words as natural numbers: bits, fields, `|`, and their bytes in memory, least significant first.
 */
module Words {

  type Byte = x: nat | x < 256

  function Shr(a: nat, k: nat): nat {
    if k == 0 then a else Shr(a / 2, k - 1)
  }

  /** The lowest `k` bits. */
  function Low(a: nat, k: nat): nat {
    if k == 0 then 0 else a % 2 + 2 * Low(a / 2, k - 1)
  }

  /** Bitwise `|`. */
  function BitOr(a: nat, b: nat): nat
    decreases a + b
  {
    if a == 0 then b else if b == 0 then a
    else (if a % 2 == 1 || b % 2 == 1 then 1 else 0) + 2 * BitOr(a / 2, b / 2)
  }

  lemma OrBit(a: nat, b: nat)
    ensures BitOr(a, b) % 2 == (if a % 2 == 1 || b % 2 == 1 then 1 else 0)
    ensures BitOr(a, b) / 2 == BitOr(a / 2, b / 2)
  {
  }

  lemma {:induction false} OrShr(a: nat, b: nat, k: nat)
    ensures Shr(BitOr(a, b), k) == BitOr(Shr(a, k), Shr(b, k))
    decreases k
  {
    if k > 0 {
      OrBit(a, b);
      OrShr(a / 2, b / 2, k - 1);
    }
  }

  lemma {:induction false} OrLow(a: nat, b: nat, k: nat)
    ensures Low(BitOr(a, b), k) == BitOr(Low(a, k), Low(b, k))
    decreases k
  {
    if k > 0 {
      OrBit(a, b);
      OrLow(a / 2, b / 2, k - 1);
      OrBit(Low(a, k), Low(b, k));
    }
  }

  /** What fits in `k` bits is its lowest `k` bits. */
  lemma {:induction false} LowWhole(a: nat, k: nat)
    requires Shr(a, k) == 0
    ensures Low(a, k) == a
    decreases k
  {
    if k > 0 { LowWhole(a / 2, k - 1); }
  }

  lemma {:induction false} ShrMonotone(a: nat, b: nat, k: nat)
    requires a <= b
    ensures Shr(a, k) <= Shr(b, k)
    decreases k
  {
    if k > 0 { ShrMonotone(a / 2, b / 2, k - 1); }
  }

  lemma ShrZero(k: nat)
    ensures Shr(0, k) == 0 && Low(0, k) == 0
  {
  }

  lemma {:induction false} ShrPlus(a: nat, k: nat, j: nat)
    ensures Shr(Shr(a, k), j) == Shr(a, k + j)
    decreases k
  {
    if k > 0 { ShrPlus(a / 2, k - 1, j); }
  }

  lemma FirstBits(w: nat)
    ensures Shr(w, 0) == w && Shr(w, 1) == w / 2 && Shr(w, 2) == w / 4
  {
    assert Shr(w, 2) == Shr(w / 2, 1);
  }

  lemma ShrFour(a: nat)
    ensures Shr(a, 4) == a / 16
  {
    hide Shr;
    FirstBits(a);
    FirstBits(a / 4);
    ShrPlus(a, 2, 2);
  }

  lemma ShrFive(a: nat)
    ensures Shr(a, 5) == a / 32
  {
    hide Shr;
    ShrFour(a);
    FirstBits(a / 16);
    ShrPlus(a, 4, 1);
  }

  lemma ShrByte(a: nat)
    ensures Shr(a, 8) == a / 256
  {
    hide Shr;
    ShrFour(a);
    ShrFour(a / 16);
    ShrPlus(a, 4, 4);
  }

  /** A value shifted left by 12 and back. */
  lemma ShrPage(f: nat)
    ensures Shr(f * 4096, 12) == f
  {
    hide Shr;
    ShrByte(f * 4096);
    ShrFour(f * 16);
    ShrPlus(f * 4096, 8, 4);
  }

  // ---------------------------------------------------------------- bytes

  function ToBytes(w: nat, n: nat): (s: seq<Byte>)
    ensures |s| == n
  {
    if n == 0 then [] else [w % 256] + ToBytes(w / 256, n - 1)
  }

  function FromBytes(s: seq<Byte>): nat {
    if s == [] then 0 else s[0] + 256 * FromBytes(s[1..])
  }

  /** The first byte is the lowest, and the last one the highest. */
  lemma LittleEndian(s: seq<Byte>)
    requires |s| == 8
    ensures FromBytes(s) == s[0] as nat + s[1] as nat * 0x100 + s[2] as nat * 0x1_0000 + s[3] as nat * 0x100_0000
                            + s[4] as nat * 0x1_0000_0000 + s[5] as nat * 0x100_0000_0000 + s[6] as nat * 0x1_0000_0000_0000
                            + s[7] as nat * 0x100_0000_0000_0000
  {
    FourBytes(s);
    FourBytes(s[4..]);
    assert s[4..][4..] == [];
  }

  lemma FourBytes(s: seq<Byte>)
    requires |s| >= 4
    ensures FromBytes(s) == s[0] as nat + s[1] as nat * 0x100 + s[2] as nat * 0x1_0000 + s[3] as nat * 0x100_0000
                            + FromBytes(s[4..]) * 0x1_0000_0000
  {
    var t, u, v := s[1..], s[2..], s[3..];
    assert t[1..] == u && u[1..] == v && v[1..] == s[4..];
    assert FromBytes(s) == s[0] as nat + 256 * FromBytes(t) && FromBytes(t) == s[1] as nat + 256 * FromBytes(u);
    assert FromBytes(u) == s[2] as nat + 256 * FromBytes(v) && FromBytes(v) == s[3] as nat + 256 * FromBytes(s[4..]);
  }

  /** The word has no more than `n` bytes. */
  predicate Fits(w: nat, n: nat) {
    if n == 0 then w == 0 else Fits(w / 256, n - 1)
  }

  lemma {:induction false} BytesTrip(w: nat, n: nat)
    requires Fits(w, n)
    ensures FromBytes(ToBytes(w, n)) == w
    decreases n
  {
    if n > 0 {
      BytesTrip(w / 256, n - 1);
      assert ToBytes(w, n)[1..] == ToBytes(w / 256, n - 1);
    }
  }

  lemma {:induction false} BytesBack(s: seq<Byte>)
    ensures ToBytes(FromBytes(s), |s|) == s
  {
    if s != [] {
      BytesBack(s[1..]);
      assert FromBytes(s) / 256 == FromBytes(s[1..]);
    }
  }

  lemma {:induction false} ZeroBytes(s: seq<Byte>)
    requires forall i :: 0 <= i < |s| ==> s[i] == 0
    ensures FromBytes(s) == 0
  {
    if s != [] { ZeroBytes(s[1..]); }
  }

  lemma {:induction false} OrFits(a: nat, b: nat, n: nat)
    requires Fits(a, n) && Fits(b, n)
    ensures Fits(BitOr(a, b), n)
    decreases n
  {
    if n > 0 {
      OrByte(a, b);
      OrFits(a / 256, b / 256, n - 1);
    }
  }

  lemma OrByte(a: nat, b: nat)
    ensures BitOr(a, b) / 256 == BitOr(a / 256, b / 256)
  {
    OrShr(a, b, 8);
    ShrByte(a);
    ShrByte(b);
    ShrByte(BitOr(a, b));
  }
}
