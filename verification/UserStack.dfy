/**
 kernel/c/kernel.c: the stack that a program starts with. Strings are laid down from the top, then random
 bytes, and below them, on a 16-byte boundary, the words that section 3.4.1 of the System V AMD64 ABI asks for.
 */
module UserStack {
  import opened Basics
  import opened Words

  type Memory = seq<Byte>
  type Text = s: seq<Byte> | 0 !in s

  const AT_NULL := 0
  const AT_PHDR := 3
  const AT_PHENT := 4
  const AT_PHNUM := 5
  const AT_PAGESZ := 6
  const AT_BASE := 7
  const AT_FLAGS := 8
  const AT_ENTRY := 9
  const AT_RANDOM := 25
  const MAX_ENTRIES := 10
  const PHDR_SIZE := 56              // sizeof(elf64_phdr_t)

  /** What `load_user_land` uses of `elf_info_t`. */
  datatype ElfInfo = ElfInfo(entry: nat, base: nat, phdrNum: nat, loadAddr: nat, phdrOff: nat)

  // ---------------------------------------------------------------- what a program finds

  function WordAt(m: Memory, a: nat): nat {
    if a + 8 <= |m| then FromBytes(m[a..a + 8]) else 0
  }

  /** The bytes before the first zero. */
  function CString(m: Memory, p: nat): seq<Byte>
    decreases |m| - p
  {
    if p < |m| && m[p] != 0 then [m[p]] + CString(m, p + 1) else []
  }

  /** The words before the first zero. */
  function WordsFrom(m: Memory, a: nat): seq<nat>
    decreases |m| - a
  {
    if a + 8 <= |m| && WordAt(m, a) != 0 then [WordAt(m, a)] + WordsFrom(m, a + 8) else []
  }

  /** The pairs before the first one with a zero in front. */
  function PairsFrom(m: Memory, a: nat): seq<(nat, nat)>
    decreases |m| - a
  {
    if a + 8 <= |m| && WordAt(m, a) != AT_NULL then [(WordAt(m, a), WordAt(m, a + 8))] + PairsFrom(m, a + 16) else []
  }

  function Strings(m: Memory, ps: seq<nat>): (r: seq<seq<Byte>>)
    ensures |r| == |ps| && forall i :: 0 <= i < |ps| ==> r[i] == CString(m, ps[i])
  {
    seq(|ps|, i requires 0 <= i < |ps| => CString(m, ps[i]))
  }

  /** The process's view: argument count and strings, environment, auxiliary vector. */
  datatype Start = Start(argc: nat, argv: seq<seq<Byte>>, envp: seq<seq<Byte>>, aux: seq<(nat, nat)>)

  /** Section 3.4.1: `argc`, the arguments and a zero, the environment and a zero, and the auxiliary vector. */
  function Decode(m: Memory, sp: nat): Start {
    var args := WordsFrom(m, sp + 8);
    var envs := WordsFrom(m, sp + 8 + 8 * (|args| + 1));
    Start(WordAt(m, sp), Strings(m, args), Strings(m, envs), PairsFrom(m, sp + 8 + 8 * (|args| + 1) + 8 * (|envs| + 1)))
  }

  lemma {:induction false} WordsFromAt(m: Memory, a: nat, i: nat)
    requires i < |WordsFrom(m, a)|
    ensures a + 8 * i + 8 <= |m| && WordsFrom(m, a)[i] == FromBytes(m[a + 8 * i..a + 8 * i + 8]) != 0
    decreases i
  {
    if i > 0 { WordsFromAt(m, a + 8, i - 1); }
  }

  lemma {:induction false} WordsFromEnd(m: Memory, a: nat)
    ensures var e := a + 8 * |WordsFrom(m, a)|; e + 8 <= |m| ==> FromBytes(m[e..e + 8]) == 0
    decreases |m| - a
  {
    if a + 8 <= |m| && WordAt(m, a) != 0 { WordsFromEnd(m, a + 8); }
  }

  lemma {:induction false} PairsFromAt(m: Memory, a: nat, i: nat)
    requires i < |PairsFrom(m, a)|
    ensures var k := a + 16 * i; k + 8 <= |m| && PairsFrom(m, a)[i].0 == FromBytes(m[k..k + 8]) != 0
    ensures var k := a + 16 * i + 8; k + 8 <= |m| ==> PairsFrom(m, a)[i].1 == FromBytes(m[k..k + 8])
    decreases i
  {
    if i > 0 { PairsFromAt(m, a + 16, i - 1); }
  }

  lemma {:induction false} CStringMeans(m: Memory, p: nat)
    requires p <= |m|
    ensures var e := p + |CString(m, p)|; e <= |m| && CString(m, p) == m[p..e] && 0 !in m[p..e] && (e < |m| ==> m[e] == 0)
    decreases |m| - p
  {
    if p < |m| && m[p] != 0 {
      CStringMeans(m, p + 1);
      var e := p + |CString(m, p)|;
      assert m[p..e] == [m[p]] + m[p + 1..e];
    }
  }

  /** Where `Decode` finds the count and the arguments: at the stack pointer, and by the addresses behind it. */
  lemma DecodeArgs(m: Memory, sp: nat, i: nat)
    requires sp + 8 <= |m| && i < |Decode(m, sp).argv|
    ensures Decode(m, sp).argc == FromBytes(m[sp..sp + 8])
    ensures var a := sp + 8 + 8 * i; a + 8 <= |m| && Decode(m, sp).argv[i] == CString(m, FromBytes(m[a..a + 8]))
  {
    hide WordsFrom, PairsFrom, CString, FromBytes;
    WordsFromAt(m, sp + 8, i);
  }

  /** Behind the addresses of the arguments and a zero, those of the environment. */
  lemma DecodeEnvs(m: Memory, sp: nat, i: nat)
    requires i < |Decode(m, sp).envp|
    ensures var z := sp + 8 + 8 * |Decode(m, sp).argv|; z + 8 <= |m| && FromBytes(m[z..z + 8]) == 0
    ensures var a := sp + 8 + 8 * (|Decode(m, sp).argv| + 1) + 8 * i; a + 8 <= |m| && Decode(m, sp).envp[i] == CString(m, FromBytes(m[a..a + 8]))
  {
    hide WordsFrom, PairsFrom, CString, FromBytes;
    WordsFromEnd(m, sp + 8);
    WordsFromAt(m, sp + 8 + 8 * (|WordsFrom(m, sp + 8)| + 1), i);
  }

  /** Behind these and a zero, the pairs of the auxiliary vector. */
  lemma DecodeAux(m: Memory, sp: nat, i: nat)
    requires i < |Decode(m, sp).aux|
    ensures var z := sp + 8 + 8 * (|Decode(m, sp).argv| + 1) + 8 * |Decode(m, sp).envp|; z + 8 <= |m| && FromBytes(m[z..z + 8]) == 0
    ensures var a := sp + 8 + 8 * (|Decode(m, sp).argv| + 1) + 8 * (|Decode(m, sp).envp| + 1) + 16 * i;
      && a + 8 <= |m| && Decode(m, sp).aux[i].0 == FromBytes(m[a..a + 8])
      && (a + 16 <= |m| ==> Decode(m, sp).aux[i].1 == FromBytes(m[a + 8..a + 16]))
  {
    hide WordsFrom, PairsFrom, CString, FromBytes;
    var env := sp + 8 + 8 * (|WordsFrom(m, sp + 8)| + 1);
    WordsFromEnd(m, env);
    PairsFromAt(m, env + 8 * (|WordsFrom(m, env)| + 1), i);
  }

  // ---------------------------------------------------------------- the layout

  /** The bytes that strings take, with their zeros. */
  function Size(ts: seq<Text>): nat {
    if ts == [] then 0 else |ts[0]| + 1 + Size(ts[1..])
  }

  function Image(ts: seq<Text>): (r: seq<Byte>)
    ensures |r| == Size(ts)
  {
    if ts == [] then [] else ts[0] + [0] + Image(ts[1..])
  }

  /** Where the strings lie when the last one ends below `top`. */
  function Places(top: nat, ts: seq<Text>): (r: seq<nat>)
    requires Size(ts) <= top
    ensures |r| == |ts|
  {
    if ts == [] then [] else [top - Size(ts)] + Places(top, ts[1..])
  }

  function BytesOf(ws: seq<nat>): (r: seq<Byte>)
    ensures |r| == 8 * |ws|
  {
    if ws == [] then [] else ToBytes(ws[0], 8) + BytesOf(ws[1..])
  }

  function Overwrite(m: Memory, a: nat, s: seq<Byte>): (r: Memory)
    requires a + |s| <= |m|
    ensures |r| == |m| && r[a..a + |s|] == s && r[..a] == m[..a] && r[a + |s|..] == m[a + |s|..]
  {
    m[..a] + s + m[a + |s|..]
  }

  function AuxOf(info: ElfInfo, random: nat): seq<(nat, nat)> {
    [(AT_ENTRY, info.entry), (AT_FLAGS, 0), (AT_BASE, info.base), (AT_PHNUM, info.phdrNum), (AT_PHENT, PHDR_SIZE),
     (AT_PHDR, (info.loadAddr + info.phdrOff) % WORD), (AT_PAGESZ, PAGE_SIZE), (AT_RANDOM, random)]
  }

  /** Eight entries, each with a key of its own. */
  lemma AuxHolds(info: ElfInfo, random: nat)
    ensures var aux := AuxOf(info, random); |aux| == 8 && forall i, j :: 0 <= i < j < 8 ==> aux[i].0 != aux[j].0
    ensures {(9, info.entry), (8, 0), (7, info.base), (5, info.phdrNum), (4, 56), (3, (info.loadAddr + info.phdrOff) % WORD), (6, 4096),
             (25, random)} == set pair | pair in AuxOf(info, random)
  {
    var aux := AuxOf(info, random);
    assert forall pair :: pair in aux <==> exists i :: 0 <= i < 8 && pair == aux[i];
  }

  function Flat(ps: seq<(nat, nat)>): (r: seq<nat>)
    ensures |r| == 2 * |ps|
  {
    if ps == [] then [] else [ps[0].0, ps[0].1] + Flat(ps[1..])
  }

  /** All the words on the stack. */
  function Block(args: seq<nat>, envs: seq<nat>, aux: seq<(nat, nat)>): (r: seq<nat>)
    ensures |r| == |args| + |envs| + 2 * |aux| + 5
  {
    [|args|] + (args + [0]) + (envs + [0]) + (Flat(aux) + [0, 0])
  }

  // ---------------------------------------------------------------- words

  ghost predicate WordsAt(m: Memory, a: nat, ws: seq<nat>)
    decreases |ws|
  {
    ws != [] ==> a + 8 <= |m| && WordAt(m, a) == ws[0] && WordsAt(m, a + 8, ws[1..])
  }

  predicate Wide(ws: seq<nat>) {
    forall i :: 0 <= i < |ws| ==> ws[i] < WORD
  }

  function Power(n: nat): nat {
    if n == 0 then 1 else 256 * Power(n - 1)
  }

  lemma {:induction false} FitsBelow(w: nat, n: nat)
    requires w < Power(n)
    ensures Fits(w, n)
    decreases n
  {
    if n > 0 { FitsBelow(w / 256, n - 1); }
  }

  lemma FitsWord(w: nat)
    requires w < WORD
    ensures Fits(w, 8)
  {
    assert Power(4) == 0x1_0000_0000 by { assert Power(2) == 0x1_0000; }
    assert Power(8) == WORD by { assert Power(6) == 0x1_0000_0000_0000; }
    FitsBelow(w, 8);
  }

  /** Bytes of words read back as the words. */
  lemma {:induction false} BytesAreWords(m: Memory, a: nat, ws: seq<nat>)
    requires Wide(ws) && a + 8 * |ws| <= |m| && m[a..a + 8 * |ws|] == BytesOf(ws)
    ensures WordsAt(m, a, ws)
    decreases |ws|
  {
    if ws != [] {
      var bytes := m[a..a + 8 * |ws|];
      assert m[a..a + 8] == bytes[..8] == ToBytes(ws[0], 8);
      assert m[a + 8..a + 8 + 8 * |ws[1..]|] == bytes[8..] == BytesOf(ws[1..]);
      FitsWord(ws[0]);
      BytesTrip(ws[0], 8);
      BytesAreWords(m, a + 8, ws[1..]);
    }
  }

  lemma {:induction false} WordsSplit(m: Memory, a: nat, u: seq<nat>, v: seq<nat>)
    requires WordsAt(m, a, u + v)
    ensures WordsAt(m, a, u) && WordsAt(m, a + 8 * |u|, v)
    decreases |u|
  {
    if u == [] {
      assert u + v == v;
    } else {
      assert (u + v)[1..] == u[1..] + v;
      WordsSplit(m, a + 8, u[1..], v);
    }
  }

  lemma {:induction false} WordsToZero(m: Memory, a: nat, ws: seq<nat>)
    requires WordsAt(m, a, ws + [0]) && forall i :: 0 <= i < |ws| ==> ws[i] != 0
    ensures WordsFrom(m, a) == ws
    decreases |ws|
  {
    if ws == [] {
      assert ws + [0] == [0];
    } else {
      assert (ws + [0])[1..] == ws[1..] + [0];
      WordsToZero(m, a + 8, ws[1..]);
    }
  }

  lemma {:induction false} PairsToNull(m: Memory, a: nat, ps: seq<(nat, nat)>)
    requires WordsAt(m, a, Flat(ps) + [0, 0]) && forall i :: 0 <= i < |ps| ==> ps[i].0 != AT_NULL
    ensures PairsFrom(m, a) == ps
    decreases |ps|
  {
    var ws := Flat(ps) + [0, 0];
    if ps == [] {
      assert ws[0] == AT_NULL;
    } else {
      assert ws[1..][1..] == Flat(ps[1..]) + [0, 0];
      assert ws[0] == ps[0].0 && ws[1..][0] == ps[0].1;
      PairsToNull(m, a + 16, ps[1..]);
    }
  }

  // ---------------------------------------------------------------- strings

  lemma {:induction false} TextIs(m: Memory, p: nat, t: Text)
    requires p + |t| < |m| && m[p..p + |t|] == t && m[p + |t|] == 0
    ensures CString(m, p) == t
    decreases |t|
  {
    if t != [] {
      assert m[p] == t[0];
      assert m[p + 1..p + 1 + |t[1..]|] == t[1..];
      TextIs(m, p + 1, t[1..]);
    }
  }

  /** The image of strings reads as the strings. */
  lemma {:induction false} ImageReads(m: Memory, top: nat, ts: seq<Text>)
    requires Size(ts) <= top <= |m| && m[top - Size(ts)..top] == Image(ts)
    ensures Strings(m, Places(top, ts)) == ts
    decreases |ts|
  {
    if ts != [] {
      var a, t, image := top - Size(ts), ts[0], m[top - Size(ts)..top];
      assert m[a..a + |t|] == image[..|t|] == t;
      assert m[a + |t|] == image[|t|] == 0;
      TextIs(m, a, t);
      assert m[top - Size(ts[1..])..top] == image[|t| + 1..] == Image(ts[1..]);
      ImageReads(m, top, ts[1..]);
      var ps := Places(top, ts);
      forall i | 0 <= i < |ts|
        ensures Strings(m, ps)[i] == ts[i]
      {
        if i > 0 { assert ps[i] == Places(top, ts[1..])[i - 1] && Strings(m, Places(top, ts[1..]))[i - 1] == ts[1..][i - 1]; }
      }
    }
  }

  lemma {:induction false} PlacesAt(top: nat, ts: seq<Text>, i: nat)
    requires Size(ts) <= top && i < |ts|
    ensures Size(ts[i..]) <= Size(ts) && Places(top, ts)[i] == top - Size(ts[i..])
    decreases |ts|
  {
    if i > 0 {
      PlacesAt(top, ts[1..], i - 1);
      assert ts[i..] == ts[1..][i - 1..];
    }
  }

  // ---------------------------------------------------------------- the stack decodes

  /** A stack with this block, and with the two images above it, decodes to the strings and the pairs. */
  lemma StackDecodes(m: Memory, sp: nat, argTop: nat, args: seq<Text>, envTop: nat, envs: seq<Text>, aux: seq<(nat, nat)>)
    requires Size(args) < argTop <= |m| && m[argTop - Size(args)..argTop] == Image(args)
    requires Size(envs) < envTop <= |m| && m[envTop - Size(envs)..envTop] == Image(envs)
    requires forall i :: 0 <= i < |aux| ==> aux[i].0 != AT_NULL
    requires WordsAt(m, sp, Block(Places(argTop, args), Places(envTop, envs), aux))
    ensures Decode(m, sp) == Start(|args|, args, envs, aux)
  {
    hide Image, Size, Places, Strings, WordsAt, Flat, WordsFrom, PairsFrom, WordAt;
    var ps, qs := Places(argTop, args), Places(envTop, envs);
    WordsSplit(m, sp, [|ps|] + (ps + [0]) + (qs + [0]), Flat(aux) + [0, 0]);
    WordsSplit(m, sp, [|ps|] + (ps + [0]), qs + [0]);
    WordsSplit(m, sp, [|ps|], ps + [0]);
    FirstWord(m, sp, |ps|);
    PlacesBelow(argTop, args);
    PlacesBelow(envTop, envs);
    WordsToZero(m, sp + 8, ps);
    WordsToZero(m, sp + 8 + 8 * (|ps| + 1), qs);
    PairsToNull(m, sp + 8 + 8 * (|ps| + 1) + 8 * (|qs| + 1), aux);
    ImageReads(m, argTop, args);
    ImageReads(m, envTop, envs);
  }

  lemma FirstWord(m: Memory, a: nat, w: nat)
    requires WordsAt(m, a, [w])
    ensures WordAt(m, a) == w
  {
  }

  // ---------------------------------------------------------------- laying the stack down

  ghost predicate TextAt(m: Memory, p: nat, t: Text) {
    p + |t| < |m| && m[p..p + |t|] == t && m[p + |t|] == 0
  }

  /** Strings lie one behind the other, where the pointers say. */
  ghost predicate Laid(m: Memory, ps: seq<nat>, ts: seq<Text>)
    decreases |ts|
  {
    && |ps| == |ts|
    && (ts != [] ==> TextAt(m, ps[0], ts[0]) && Laid(m, ps[1..], ts[1..]))
    && (|ts| > 1 ==> ps[1] == ps[0] + |ts[0]| + 1)
  }

  lemma {:induction false} LaidAt(m: Memory, ps: seq<nat>, ts: seq<Text>, i: nat)
    requires Laid(m, ps, ts) && i < |ts|
    ensures |ps| == |ts| && TextAt(m, ps[i], ts[i])
    decreases i
  {
    if i > 0 { LaidAt(m, ps[1..], ts[1..], i - 1); }
  }

  /** Laid down like this, strings are the image that one `memcpy` takes. */
  lemma {:induction false} LaidImage(m: Memory, ps: seq<nat>, ts: seq<Text>)
    requires Laid(m, ps, ts) && ts != []
    ensures ps[0] + Size(ts) <= |m| && m[ps[0]..ps[0] + Size(ts)] == Image(ts)
    decreases |ts|
  {
    var p, t := ps[0], ts[0];
    assert m[p..p + |t| + 1] == t + [0];
    if |ts| == 1 {
      assert Size(ts) == |t| + 1 && Image(ts) == t + [0] + [];
    } else {
      LaidImage(m, ps[1..], ts[1..]);
      assert m[p..p + Size(ts)] == m[p..p + |t| + 1] + m[p + |t| + 1..p + Size(ts)];
    }
  }

  method StrLen(mem: array<Byte>, p: nat, ghost t: Text) returns (n: nat)
    requires TextAt(mem[..], p, t)
    ensures n == |t|
  {
    n := 0;
    TextByte(mem[..], p, t, n);
    while mem[p + n] != 0
      invariant n <= |t| && (mem[p + n] == 0 <==> n == |t|)
      decreases |t| - n
    {
      n := n + 1;
      TextByte(mem[..], p, t, n);
    }
  }

  lemma TextByte(m: Memory, p: nat, t: Text, n: nat)
    requires TextAt(m, p, t) && n <= |t|
    ensures m[p + n] == 0 <==> n == |t|
  {
    if n < |t| { assert m[p + n] == m[p..p + |t|][n] == t[n]; }
  }

  /** `stack_alloc` */
  function StackAlloc(sp: nat, n: nat): nat
    requires n <= sp
  {
    sp - n
  }

  /** `stack_round` */
  function StackRound(sp: nat): nat {
    sp - sp % 16
  }

  /** A place for each string, the last one first. */
  method PushStrings(mem: array<Byte>, top: nat, strings: array<nat>, count: nat, ghost ts: seq<Text>)
    returns (sp: nat, users: array<nat>, size: nat)
    requires count == |ts| && count <= strings.Length && Laid(mem[..], strings[..count], ts) && Size(ts) <= top
    ensures size == Size(ts) && sp == top - size && fresh(users) && users[..] == Places(top, ts)
  {
    users := new nat[count];
    sp, size := top, 0;
    var i := count;
    assert ts[count..] == [];
    while i > 0
      invariant i <= count && size == Size(ts[i..]) && sp == top - size && size <= Size(ts)
      invariant forall j :: i <= j < count ==> users[j] == Places(top, ts)[j]
    {
      i := i - 1;
      LaidAt(mem[..], strings[..count], ts, i);
      PlacesAt(top, ts, i);
      assert ts[i..][0] == ts[i] && ts[i..][1..] == ts[i + 1..];
      var length := StrLen(mem, strings[i], ts[i]);
      var bytes := length + 1;
      sp := StackAlloc(sp, bytes);
      users[i] := sp;
      size := size + bytes;
    }
    assert ts[0..] == ts;
  }

  /** `memcpy` between ranges that do not overlap. */
  method CopyBytes(mem: array<Byte>, to: nat, from: nat, n: nat)
    requires to + n <= mem.Length && from + n <= mem.Length && (to + n <= from || from + n <= to)
    modifies mem
    ensures mem[..] == Overwrite(old(mem[..]), to, old(mem[from..from + n]))
  {
    var i := 0;
    while i < n
      invariant i <= n
      invariant forall a :: 0 <= a < mem.Length ==> mem[a] == if to <= a < to + i then old(mem[a - to + from]) else old(mem[a])
    {
      mem[to + i] := mem[from + i];
      i := i + 1;
    }
  }

  /** `*usp = w` */
  method PutWord(mem: array<Byte>, a: nat, w: nat)
    requires a + 8 <= mem.Length
    modifies mem
    ensures mem[..] == Overwrite(old(mem[..]), a, ToBytes(w, 8))
  {
    hide ToBytes;
    var bytes := ToBytes(w, 8);
    for i := 0 to 8
      invariant forall b :: 0 <= b < mem.Length ==> mem[b] == if a <= b < a + i then bytes[b - a] else old(mem[b])
    {
      mem[a + i] := bytes[i];
    }
  }

  lemma OverwriteMore(m: Memory, a: nat, s: seq<Byte>, t: seq<Byte>)
    requires a + |s| + |t| <= |m|
    ensures Overwrite(Overwrite(m, a, s), a + |s|, t) == Overwrite(m, a, s + t)
  {
  }

  lemma {:induction false} BytesMore(ws: seq<nat>, w: nat)
    ensures BytesOf(ws + [w]) == BytesOf(ws) + ToBytes(w, 8)
    decreases |ws|
  {
    if ws == [] {
      assert ws + [w] == [w] && [w][1..] == [];
    } else {
      assert (ws + [w])[1..] == ws[1..] + [w];
      BytesMore(ws[1..], w);
    }
  }

  /** The words `done` have been written from `sp` on. */
  ghost predicate Written(m: Memory, was: Memory, sp: nat, done: seq<nat>) {
    sp + 8 * |done| <= |was| && m == Overwrite(was, sp, BytesOf(done))
  }

  /** One more word. */
  method Push(mem: array<Byte>, usp: nat, w: nat, ghost was: Memory, ghost sp: nat, ghost done: seq<nat>) returns (next: nat)
    requires Written(mem[..], was, sp, done) && usp == sp + 8 * |done| && usp + 8 <= mem.Length
    modifies mem
    ensures next == usp + 8 && Written(mem[..], was, sp, done + [w])
  {
    hide ToBytes, BytesOf;
    PutWord(mem, usp, w);
    OverwriteMore(was, sp, BytesOf(done), ToBytes(w, 8));
    BytesMore(done, w);
    next := usp + 8;
  }

  /** `memcpy` of an array of words, or the loop over one. */
  method PushAll(mem: array<Byte>, usp: nat, words: array<nat>, n: nat, ghost was: Memory, ghost sp: nat, ghost done: seq<nat>)
    returns (next: nat)
    requires n <= words.Length && Written(mem[..], was, sp, done) && usp == sp + 8 * |done| && usp + 8 * n <= mem.Length
    modifies mem
    ensures next == usp + 8 * n && Written(mem[..], was, sp, done + words[..n])
  {
    hide Written;
    next := usp;
    assert done + words[..0] == done;
    for i := 0 to n
      invariant next == usp + 8 * i && Written(mem[..], was, sp, done + words[..i])
    {
      next := Push(mem, next, words[i], was, sp, done + words[..i]);
      assert done + words[..i + 1] == done + words[..i] + [words[i]];
    }
  }

  lemma {:induction false} FlatMore(ps: seq<(nat, nat)>, p: (nat, nat))
    ensures Flat(ps + [p]) == Flat(ps) + [p.0, p.1]
    decreases |ps|
  {
    if ps == [] {
      assert ps + [p] == [p];
    } else {
      assert (ps + [p])[1..] == ps[1..] + [p];
      FlatMore(ps[1..], p);
    }
  }

  /** `new_aux_entry` */
  method NewAuxEntry(entries: array<nat>, num: nat, id: nat, value: nat, ghost ps: seq<(nat, nat)>) returns (next: nat)
    requires entries.Length == 2 * MAX_ENTRIES && num <= entries.Length && entries[..num] == Flat(ps)
    modifies entries
    ensures next <= entries.Length
    ensures num <= 18 ==> next == num + 2 <= entries.Length && entries[..next] == Flat(ps + [(id, value)])
    ensures num > 18 ==> next == num && entries[..] == old(entries[..])
  {
    hide Flat;
    next := num;
    if num + 2 > MAX_ENTRIES * 2 {
      return;
    }
    entries[next] := id;
    next := next + 1;
    entries[next] := value;
    next := next + 1;
    FlatMore(ps, (id, value));
    assert entries[..next] == old(entries[..num]) + [id, value];
  }

  /** The entries that a program is given. */
  method AuxEntries(info: ElfInfo, random: nat) returns (entries: array<nat>, num: nat)
    ensures fresh(entries) && num <= entries.Length && entries[..num] == Flat(AuxOf(info, random))
  {
    hide Flat;
    entries := new nat[2 * MAX_ENTRIES];
    num := 0;
    ghost var ps := AuxOf(info, random);
    assert ps[..0] == [];
    NoPairs();
    num := NewAuxEntry(entries, num, AT_ENTRY, info.entry, ps[..0]);
    assert ps[..0] + [ps[0]] == ps[..1];
    num := NewAuxEntry(entries, num, AT_FLAGS, 0, ps[..1]);
    assert ps[..1] + [ps[1]] == ps[..2];
    num := NewAuxEntry(entries, num, AT_BASE, info.base, ps[..2]);
    assert ps[..2] + [ps[2]] == ps[..3];
    num := NewAuxEntry(entries, num, AT_PHNUM, info.phdrNum, ps[..3]);
    assert ps[..3] + [ps[3]] == ps[..4];
    num := NewAuxEntry(entries, num, AT_PHENT, PHDR_SIZE, ps[..4]);
    assert ps[..4] + [ps[4]] == ps[..5];
    num := NewAuxEntry(entries, num, AT_PHDR, (info.loadAddr + info.phdrOff) % WORD, ps[..5]);
    assert ps[..5] + [ps[5]] == ps[..6];
    num := NewAuxEntry(entries, num, AT_PAGESZ, PAGE_SIZE, ps[..6]);
    assert ps[..6] + [ps[6]] == ps[..7];
    num := NewAuxEntry(entries, num, AT_RANDOM, random, ps[..7]);
    assert ps[..7] + [ps[7]] == ps;
  }

  lemma NoPairs()
    ensures Flat([]) == []
  {
  }

  lemma {:induction false} FlatWide(ps: seq<(nat, nat)>)
    requires forall i :: 0 <= i < |ps| ==> ps[i].0 < WORD && ps[i].1 < WORD
    ensures Wide(Flat(ps))
    decreases |ps|
  {
    if ps != [] { FlatWide(ps[1..]); }
  }

  lemma NothingWritten(m: Memory, sp: nat)
    requires sp <= |m|
    ensures Written(m, m, sp, [])
  {
  }

  /** The words from the argument count on. */
  method WriteBlock(mem: array<Byte>, esp: nat, argc: nat, userArgv: array<nat>, envc: nat, userEnvp: array<nat>,
                    entries: array<nat>, num: nat, ghost aux: seq<(nat, nat)>)
    requires argc == userArgv.Length && envc == userEnvp.Length && num <= entries.Length && entries[..num] == Flat(aux)
    requires esp + 8 * (argc + envc + num + 5) <= mem.Length
    modifies mem
    ensures Written(mem[..], old(mem[..]), esp, Block(userArgv[..], userEnvp[..], aux))
  {
    hide Written, Flat;
    ghost var was, args, envs, words := mem[..], userArgv[..], userEnvp[..], entries[..num];
    NothingWritten(was, esp);
    var usp := Push(mem, esp, argc, was, esp, []);
    usp := PushAll(mem, usp, userArgv, argc, was, esp, [] + [argc]);
    assert userArgv[..argc] == args;
    usp := Push(mem, usp, 0, was, esp, [] + [argc] + args);
    usp := PushAll(mem, usp, userEnvp, envc, was, esp, [] + [argc] + args + [0]);
    assert userEnvp[..envc] == envs;
    usp := Push(mem, usp, 0, was, esp, [] + [argc] + args + [0] + envs);
    usp := PushAll(mem, usp, entries, num, was, esp, [] + [argc] + args + [0] + envs + [0]);
    // the null entry
    usp := Push(mem, usp, 0, was, esp, [] + [argc] + args + [0] + envs + [0] + words);
    usp := Push(mem, usp, 0, was, esp, [] + [argc] + args + [0] + envs + [0] + words + [0]);
    assert [] + [argc] + args + [0] + envs + [0] + words + [0] + [0] == Block(args, envs, aux);
  }

  /** Both images lie below `top`, and nothing else has changed. */
  ghost predicate Strewn(m: Memory, was: Memory, top: nat, args: seq<Text>, envs: seq<Text>) {
    var mid := top - Size(args);
    var low := mid - Size(envs);
    && |m| == |was| && 0 <= low && top <= |m| && m[mid..top] == Image(args) && m[low..mid] == Image(envs)
    && forall a :: 0 <= a < |m| && !(low <= a < top) ==> m[a] == was[a]
  }

  /** The two copies of `load_user_land`: each takes all the strings at once. */
  method CopyStrings(mem: array<Byte>, top: nat, argv: nat, argStart: nat, argSize: nat, envp: nat, envStart: nat, envSize: nat,
                     ghost args: seq<Text>, ghost envs: seq<Text>)
    requires argSize == Size(args) && envSize == Size(envs) && argStart + argSize == top && envStart + envSize == argStart
    requires top <= mem.Length && top <= argv && argv + argSize <= mem.Length && mem[argv..argv + argSize] == Image(args)
    requires envs != [] ==> top <= envp && envp + envSize <= mem.Length && mem[envp..envp + envSize] == Image(envs)
    requires envs == [] ==> envp == 0
    modifies mem
    ensures Strewn(mem[..], old(mem[..]), top, args, envs)
  {
    hide Overwrite, Image, Size, Strewn;
    NoStrings(envs);
    ghost var m0 := mem[..];
    CopyBytes(mem, argStart, argv, argSize);
    ghost var m1 := mem[..];
    assert m1 == Overwrite(m0, argStart, Image(args));
    OverwriteApart(m0, argStart, Image(args), envp, envSize);
    assert m1[envp..envp + envSize] == Image(envs);
    assert mem[envp..envp + envSize] == m1[envp..envp + envSize];
    CopyBytes(mem, envStart, envp, envSize);
    assert mem[..] == Overwrite(m1, envStart, Image(envs));
    TwoImages(m0, top, args, envs);
  }

  lemma NoStrings(ts: seq<Text>)
    ensures ts == [] ==> Size(ts) == 0 && Image(ts) == []
  {
  }

  lemma OverwriteApart(m: Memory, a: nat, s: seq<Byte>, b: nat, n: nat)
    requires a + |s| <= |m| && b + n <= |m| && (a + |s| <= b || b + n <= a)
    ensures Overwrite(m, a, s)[b..b + n] == m[b..b + n]
  {
  }

  lemma TwoImages(m: Memory, top: nat, args: seq<Text>, envs: seq<Text>)
    requires Size(args) + Size(envs) <= top <= |m|
    ensures var mid := top - Size(args);
      Strewn(Overwrite(Overwrite(m, mid, Image(args)), mid - Size(envs), Image(envs)), m, top, args, envs)
  {
    hide Image, Size;
    var mid := top - Size(args);
    var low := mid - Size(envs);
    var n := Overwrite(m, mid, Image(args));
    OverwriteApart(n, low, Image(envs), mid, Size(args));
  }

  /** A block below two images, as the program finds it. */
  lemma BlockDecodes(m: Memory, n: Memory, was: Memory, esp: nat, top: nat, args: seq<Text>, envs: seq<Text>, aux: seq<(nat, nat)>)
    requires Strewn(n, was, top, args, envs) && Size(args) + Size(envs) < top <= WORD
    requires var ws := Block(Places(top, args), Places(top - Size(args), envs), aux);
      Written(m, n, esp, ws) && Wide(Flat(aux)) && |args| < WORD && esp + 8 * |ws| <= top - Size(args) - Size(envs)
    requires forall i :: 0 <= i < |aux| ==> aux[i].0 != AT_NULL
    ensures Decode(m, esp) == Start(|args|, args, envs, aux)
    ensures var end := esp + 8 * (|args| + |envs| + 2 * |aux| + 5);
      forall a :: 0 <= a < |m| && !(esp <= a < end) && !(top - Size(args) - Size(envs) <= a < top) ==> m[a] == was[a]
  {
    hide Image, Size, Places, Decode, Flat, BytesOf, WordsAt, Wide, Overwrite;
    var mid := top - Size(args);
    var ws := Block(Places(top, args), Places(mid, envs), aux);
    BlockWide(top, args, envs, aux);
    OverwriteApart(n, esp, BytesOf(ws), mid, Size(args));
    OverwriteApart(n, esp, BytesOf(ws), mid - Size(envs), Size(envs));
    OverwriteIs(n, esp, BytesOf(ws));
    BytesAreWords(m, esp, ws);
    StackDecodes(m, esp, top, args, mid, envs, aux);
  }

  lemma OverwriteIs(m: Memory, a: nat, s: seq<Byte>)
    requires a + |s| <= |m|
    ensures Overwrite(m, a, s)[a..a + |s|] == s
    ensures forall b :: 0 <= b < |m| && !(a <= b < a + |s|) ==> Overwrite(m, a, s)[b] == m[b]
  {
  }

  lemma BlockWide(top: nat, args: seq<Text>, envs: seq<Text>, aux: seq<(nat, nat)>)
    requires Size(args) + Size(envs) < top <= WORD && Wide(Flat(aux)) && |args| < WORD
    ensures Wide(Block(Places(top, args), Places(top - Size(args), envs), aux))
  {
    hide Size, Places, Flat;
    PlacesBelow(top, args);
    PlacesBelow(top - Size(args), envs);
  }

  lemma {:induction false} PlacesBelow(top: nat, ts: seq<Text>)
    requires Size(ts) < top
    ensures forall i :: 0 <= i < |ts| ==> 0 < Places(top, ts)[i] < top
    decreases |ts|
  {
    if ts != [] { PlacesBelow(top, ts[1..]); }
  }

  lemma AuxWide(info: ElfInfo, random: nat)
    requires info.entry < WORD && info.base < WORD && info.phdrNum < WORD && random < WORD
    ensures |AuxOf(info, random)| == 8 && Wide(Flat(AuxOf(info, random)))
    ensures forall i :: 0 <= i < 8 ==> AuxOf(info, random)[i].0 != AT_NULL
  {
    hide Flat, Wide;
    FlatWide(AuxOf(info, random));
  }

  /** The bytes below the strings: random ones, the auxiliary vector, the pointers and counts, and what rounding takes. */
  function Below(args: seq<Text>, envs: seq<Text>): nat {
    16 + (16 + 2) * 8 + ((|args| + 1) + (|envs| + 1) + 1) * 8 + 15
  }

  /**
     `load_user_land`: `argc` and the two arrays of pointers name strings that lie one behind the other above the
     stack. What a program finds decodes to just these strings and the auxiliary entries, on a 16-byte boundary,
     with 16 random bytes between the block and the strings. Only the block and the strings are written.
   */
  method LoadUserLand(mem: array<Byte>, top: nat, info: ElfInfo, argc: nat, argv: array<nat>, envp: array<nat>,
                      ghost args: seq<Text>, ghost envs: seq<Text>)
    returns (esp: nat, random: nat)
    requires argc == |args| > 0 && argc <= argv.Length && Laid(mem[..], argv[..argc], args)
    requires envp.Length > |envs| && envp[|envs|] == 0 && (forall i :: 0 <= i < |envs| ==> envp[i] != 0)
    requires Laid(mem[..], envp[..|envs|], envs)
    requires Size(args) + Size(envs) + Below(args, envs) < top <= mem.Length <= WORD
    requires argv[0] >= top && (envs != [] ==> envp[0] >= top)
    requires info.entry < WORD && info.base < WORD && info.phdrNum < WORD
    modifies mem
    ensures esp % 16 == 0 && Decode(mem[..], esp) == Start(argc, args, envs, AuxOf(info, random))
    ensures var aux := Decode(mem[..], esp).aux; |aux| == 8 && forall i, j :: 0 <= i < j < 8 ==> aux[i].0 != aux[j].0
    ensures {(9, info.entry), (8, 0), (7, info.base), (5, info.phdrNum), (4, 56), (3, (info.loadAddr + info.phdrOff) % WORD), (6, 4096),
             (25, random)} == set pair | pair in Decode(mem[..], esp).aux
    ensures top - Size(args) - Size(envs) - Below(args, envs) <= esp
    ensures esp + 8 * (argc + |envs| + 21) <= random < esp + 8 * (argc + |envs| + 21) + 16 && random + 16 == top - Size(args) - Size(envs)
    ensures forall a :: 0 <= a < mem.Length && !(esp <= a < esp + 8 * (argc + |envs| + 21)) && !(random + 16 <= a < top) ==> mem[a] == old(mem[a])
  {
    hide Laid, Size, Places, Image, Decode, AuxOf, Flat, Written, BytesOf, Block, WordsAt, Strewn, TextAt, Wide;
    ghost var m0 := mem[..];
    var envc := 0;
    while envp[envc] != 0
      invariant envc <= |envs|
      decreases |envs| - envc
    {
      envc := envc + 1;
    }
    var argStart, userArgv, argSize := PushStrings(mem, top, argv, argc, args);
    var envStart, userEnvp, envSize := PushStrings(mem, argStart, envp, envc, envs);
    random := StackAlloc(envStart, 16);
    var entries, num := AuxEntries(info, random);
    AuxWide(info, random);
    AuxHolds(info, random);
    var sp := StackAlloc(random, (num + 2) * 8);
    sp := StackAlloc(sp, ((argc + 1) + (envc + 1) + 1) * 8);
    esp := StackRound(sp);
    LaidImage(m0, argv[..argc], args);
    if envs != [] { LaidImage(m0, envp[..envc], envs); }
    CopyStrings(mem, top, argv[0], argStart, argSize, envp[0], envStart, envSize, args, envs);
    ghost var m2 := mem[..];
    WriteBlock(mem, esp, argc, userArgv, envc, userEnvp, entries, num, AuxOf(info, random));
    BlockDecodes(mem[..], m2, m0, esp, top, args, envs, AuxOf(info, random));
  }
}
