/**
 libc/version.c and kernel/c/version.c: a pointer carries a tag in bits 40 to 47, every byte of user memory has a
 version in shadow memory, and an access is accepted when the two agree.
 */
module Versions {
  import opened Basics
  import opened Words

  const TAG := 0x100_0000_0000              // bit 40
  const TOP := 0x1_0000_0000_0000           // bit 48
  const CHECKED := 10                       // the bytes that `check_version` looks at

  type Address = x: int | 0 <= x < WORD

  /** `normalise_version_ptr`: the tag is cleared. */
  function Normalise(p: Address): Address {
    p % TAG + p / TOP * TOP
  }

  /** `get_version_ptr` */
  function GetVersionPtr(p: Address): nat {
    p / TAG
  }

  /** `set_version_ptr` */
  function SetVersionPtr(version: nat, p: Address): Address {
    assert p / TOP * TOP + TOP <= WORD;
    Normalise(p) + version % 256 * TAG
  }

  /** A tag is read back if and only if no bit above it is set, and untagging forgets it. */
  lemma TagTrip(version: nat, p: Address)
    ensures Normalise(SetVersionPtr(version, p)) == Normalise(p)
    ensures GetVersionPtr(SetVersionPtr(version, p)) == version % 256 <==> p < TOP
  {
    var u, t, low := p / TOP, version % 256, p % TAG;
    var q := low + t * TAG + u * TOP;
    assert SetVersionPtr(version, p) == q;
    assert q / TAG == t + u * 256;
    assert q / TOP == u && q % TAG == low;
  }

  /** In user space a pointer is its tag, times 2^40, and an address. */
  lemma PointerParts(version: nat, p: Address)
    requires p < 0x1_0000_0000_0000
    ensures Normalise(p) == p % 0x100_0000_0000 && p == GetVersionPtr(p) * 0x100_0000_0000 + Normalise(p)
    ensures SetVersionPtr(version, p) == version % 256 * 0x100_0000_0000 + p % 0x100_0000_0000
  {
  }

  /** `on_same_page` */
  predicate OnSamePage(p: Address, q: Address) {
    p / PAGE_SIZE == q / PAGE_SIZE
  }

  /** The shadow byte of the address `i` behind `addr`. */
  function VersionAt(shadow: seq<Byte>, addr: Address, i: nat): nat {
    var a := Normalise((addr + i) % WORD);
    if a < |shadow| then shadow[a] else 0
  }

  /** The check stops at byte `i`: it is on another page, which is present, or its version is not the tag. */
  predicate Trips(shadow: seq<Byte>, present: set<nat>, addr: Address, i: nat) {
    var off := Normalise((addr + i) % WORD);
    || (!OnSamePage(Normalise(addr), off) && off / PAGE_SIZE in present)
    || VersionAt(shadow, addr, i) != GetVersionPtr(addr)
  }

  /** User memory: the bytes from `addr` on that the check can look at have shadow bytes. */
  predicate Shadowed(shadow: seq<Byte>, addr: Address) {
    |shadow| <= TAG && addr < TOP && Normalise(addr) + CHECKED <= |shadow|
  }

  lemma Offset(shadow: seq<Byte>, addr: Address, i: nat)
    requires Shadowed(shadow, addr) && i < CHECKED
    ensures Normalise((addr + i) % WORD) == Normalise(addr) + i && VersionAt(shadow, addr, i) == shadow[Normalise(addr) + i]
  {
    assert (addr + i) % WORD == addr + i;
    assert (addr + i) / TAG == addr / TAG && (addr + i) % TAG == addr % TAG + i;
    assert (addr + i) / TOP == 0;
  }

  /** `set_version` */
  method SetVersion(shadow: array<Byte>, addr: Address, length: nat, version: nat) returns (p: Address)
    requires Normalise(addr) + length <= shadow.Length
    modifies shadow
    ensures p == SetVersionPtr(version, addr)
    ensures addr < 0x1_0000_0000_0000 ==> p == version % 256 * 0x100_0000_0000 + addr % 0x100_0000_0000
    ensures forall a :: 0 <= a < shadow.Length ==>
      shadow[a] == if Normalise(addr) <= a < Normalise(addr) + length then version % 256 else old(shadow[a])
  {
    hide Normalise, SetVersionPtr;
    if addr < TOP { PointerParts(version, addr); }
    var i := 0;
    while i < length
      invariant i <= length
      invariant forall a :: 0 <= a < shadow.Length ==>
        shadow[a] == if Normalise(addr) <= a < Normalise(addr) + i then version % 256 else old(shadow[a])
    {
      shadow[Normalise(addr) + i] := version % 256;
      i := i + 1;
    }
    p := SetVersionPtr(version, addr);
  }

  /** `check_version_instruction`; `width` is the operand width in bytes, if the instruction decodes. */
  function CheckInstruction(width: Option<nat>, offset: nat): bool {
    width.Some? && width.value <= offset
  }

  /** The bytes of an access that are looked at. */
  function Looked(width: Option<nat>): nat {
    if width.Some? && width.value < CHECKED then width.value else CHECKED
  }

  /** The check stops at byte `b` of user memory. */
  lemma TripsAt(shadow: seq<Byte>, present: set<nat>, addr: Address, i: nat)
    requires Shadowed(shadow, addr) && i < CHECKED
    ensures var a := addr % 0x100_0000_0000; a + i < |shadow| && a / 4096 <= (a + i) / 4096 <= a / 4096 + 1
    ensures var tag, b := addr / 0x100_0000_0000, addr % 0x100_0000_0000 + i;
      Trips(shadow, present, addr, i) <==> shadow[b] != tag || ((b - i) / 4096 != b / 4096 && b / 4096 in present)
  {
    hide Normalise;
    PointerParts(0, addr);
    Offset(shadow, addr, i);
  }

  /** What it means that the check stops at none of the first bytes: their versions are the tag, and none is on a present next page. */
  lemma TripsMeans(shadow: seq<Byte>, present: set<nat>, addr: Address, m: nat)
    requires Shadowed(shadow, addr) && m <= CHECKED
    ensures addr % 0x100_0000_0000 + CHECKED <= |shadow|
    ensures var tag, a := addr / 0x100_0000_0000, addr % 0x100_0000_0000;
      (forall i: nat :: i < m ==> !Trips(shadow, present, addr, i)) <==>
      (forall b :: a <= b < a + m ==> shadow[b] == tag) && (m == 0 || a / 4096 == (a + m - 1) / 4096 || a / 4096 + 1 !in present)
  {
    hide Trips;
    var tag, a := addr / 0x100_0000_0000, addr % 0x100_0000_0000;
    TripsAt(shadow, present, addr, CHECKED - 1);
    forall i: nat | i < m
      ensures Trips(shadow, present, addr, i) <==> shadow[a + i] != tag || (a / 4096 != (a + i) / 4096 && a / 4096 + 1 in present)
    {
      TripsAt(shadow, present, addr, i);
    }
    if m > 0 {
      var last: nat := m - 1;
      TripsAt(shadow, present, addr, last);
      if forall i: nat :: i < m ==> !Trips(shadow, present, addr, i) {
        forall b | a <= b < a + m
          ensures shadow[b] == tag
        {
          var i: nat := b - a;
          assert !Trips(shadow, present, addr, i);
        }
        assert !Trips(shadow, present, addr, last);
      }
    }
  }

  /**
     `check_version`: an access is let through exactly when those of its first ten bytes that it has are of the
     pointer's version, and none of them is on a next page that is present.
   */
  method CheckVersion(shadow: array<Byte>, present: set<nat>, addr: Address, width: Option<nat>) returns (ok: bool)
    requires Shadowed(shadow[..], addr)
    ensures ok <==> forall i: nat :: i < CHECKED && (width.Some? ==> i < width.value) ==> !Trips(shadow[..], present, addr, i)
    ensures var tag, a, m := addr / 0x100_0000_0000, addr % 0x100_0000_0000, if width.Some? && width.value < 10 then width.value else 10;
      && a + 10 <= shadow.Length
      && (ok <==> (forall b :: a <= b < a + m ==> shadow[b] == tag) && (m == 0 || a / 4096 == (a + m - 1) / 4096 || a / 4096 + 1 !in present))
  {
    hide Normalise, GetVersionPtr, OnSamePage, Shadowed, VersionAt;
    ghost var m := Looked(width);
    TripsMeans(shadow[..], present, addr, m);
    var ptrVer, norm := GetVersionPtr(addr), Normalise(addr);
    for i: nat := 0 to CHECKED
      invariant forall j: nat :: j < i ==> !Trips(shadow[..], present, addr, j)
    {
      var off := Normalise((addr + i) % WORD);
      Offset(shadow[..], addr, i);
      InShadow(shadow[..], addr, i);
      if !OnSamePage(norm, off) && off / PAGE_SIZE in present {
        assert Trips(shadow[..], present, addr, i);
        return CheckInstruction(width, i);
      } else if shadow[off] != ptrVer {
        assert Trips(shadow[..], present, addr, i);
        return CheckInstruction(width, i);
      }
    }
    return true;
  }

  lemma InShadow(shadow: seq<Byte>, addr: Address, i: nat)
    requires Shadowed(shadow, addr) && i < CHECKED
    ensures 0 <= Normalise(addr) && Normalise(addr) + i < |shadow|
  {
    hide Normalise;
  }

  // ---------------------------------------------------------------- what the check is for

  /** An access within one page, of no more bytes than are looked at. */
  predicate InPage(addr: Address, n: nat) {
    1 <= n <= CHECKED && Normalise(addr) / PAGE_SIZE == (Normalise(addr) + n - 1) / PAGE_SIZE
  }

  /** Within a page the check stops nowhere if and only if all shadow bytes of the access are the tag. */
  lemma TripsInPage(shadow: seq<Byte>, present: set<nat>, addr: Address, n: nat)
    requires Shadowed(shadow, addr) && InPage(addr, n)
    ensures (forall i: nat :: i < n ==> !Trips(shadow, present, addr, i)) <==>
            (forall i: nat :: i < n ==> VersionAt(shadow, addr, i) == GetVersionPtr(addr))
  {
    hide Normalise, GetVersionPtr, VersionAt, Shadowed;
    forall i: nat | i < n
      ensures Trips(shadow, present, addr, i) <==> VersionAt(shadow, addr, i) != GetVersionPtr(addr)
    {
      Offset(shadow, addr, i);
      SamePage(Normalise(addr), n, i);
    }
  }

  lemma SamePage(a: nat, n: nat, i: nat)
    requires i < n && a / PAGE_SIZE == (a + n - 1) / PAGE_SIZE
    ensures a / PAGE_SIZE == (a + i) / PAGE_SIZE
  {
  }

  /** An instruction that reads or writes `n` bytes within a page is let through exactly when all their versions are the tag. */
  method CheckAccess(shadow: array<Byte>, present: set<nat>, addr: Address, n: nat) returns (ok: bool)
    requires Shadowed(shadow[..], addr) && InPage(addr, n)
    ensures ok <==> forall i: nat :: i < n ==> VersionAt(shadow[..], addr, i) == GetVersionPtr(addr)
  {
    hide Normalise, GetVersionPtr, VersionAt, Shadowed, InPage, Trips;
    AtMostChecked(addr, n);
    TripsInPage(shadow[..], present, addr, n);
    ok := CheckVersion(shadow, present, addr, Some(n));
  }

  lemma AtMostChecked(addr: Address, n: nat)
    requires InPage(addr, n)
    ensures 1 <= n <= CHECKED
  {
  }

  /**
     A region is given the version `first`, and then the version `second`: an access through a pointer of the
     first kind is let through, within the region, if and only if the two versions have the same last eight bits.
   */
  method Retag(shadow: array<Byte>, present: set<nat>, addr: Address, length: nat, first: nat, second: nat, k: nat, n: nat)
    returns (before: bool, after: bool)
    requires addr < TOP && shadow.Length <= TAG && Normalise(addr) + length + CHECKED <= shadow.Length
    requires k + n <= length && InPage(Normalise(addr) + k, n)
    modifies shadow
    ensures before && (after <==> first % 256 == second % 256)
  {
    var p := SetVersion(shadow, addr, length, first);
    PointerInto(addr, first, k, shadow.Length);
    Untagged(shadow[..], addr, first, p + k, k, n);
    before := CheckAccess(shadow, present, p + k, n);
    var q := SetVersion(shadow, addr, length, second);
    Untagged(shadow[..], addr, second, p + k, k, n);
    after := CheckAccess(shadow, present, p + k, n);
    assert VersionAt(shadow[..], p + k, 0) == second % 256;
  }

  /** A pointer into a region keeps the tag. */
  lemma PointerInto(addr: Address, version: nat, k: nat, n: nat)
    requires addr < TOP && n <= TAG && Normalise(addr) + k + CHECKED <= n
    ensures var p := SetVersionPtr(version, addr);
      p + k < TOP && Normalise(p + k) == Normalise(addr) + k && GetVersionPtr(p + k) == version % 256
  {
    TagTrip(version, addr);
    var p := SetVersionPtr(version, addr);
    assert (p + k) / TAG == version % 256;
  }

  lemma Untagged(shadow: seq<Byte>, addr: Address, version: nat, p: Address, k: nat, n: nat)
    requires p < TOP && |shadow| <= TAG && Normalise(p) == Normalise(addr) + k && Normalise(p) + CHECKED <= |shadow| && InPage(p, n)
    requires forall i :: Normalise(p) <= i < Normalise(p) + n ==> shadow[i] == version % 256
    ensures Shadowed(shadow, p) && forall i: nat :: i < n ==> VersionAt(shadow, p, i) == version % 256
  {
    hide Normalise, VersionAt;
    forall i: nat | i < n
      ensures VersionAt(shadow, p, i) == version % 256
    {
      Offset(shadow, p, i);
    }
  }
}
