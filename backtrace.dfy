/**
 * The stack backtrace of `mon_backtrace`: starting from the current frame
 * pointer and instruction pointer, it resolves each return address through
 * the debug-information resolver, reports the frame, and moves to the
 * caller by reading the saved instruction pointer at rbp+8 and the saved
 * frame pointer at rbp, until the frame pointer is zero.
 *
 * Memory is byte-addressed and little-endian: the saved words are 8-byte
 * loads, the argument slots 4-byte loads (the source steps an `int *`).
 */
module Backtrace {

  const WordModulus: nat := 0x1_0000_0000_0000_0000

  /** A 64-bit unsigned machine word (uint64_t, uintptr_t). */
  type Word = x: int | 0 <= x < 0x1_0000_0000_0000_0000

  type Byte = x: int | 0 <= x < 0x100

  /** The kernel's readable memory: address to byte. */
  type Memory = map<Word, Byte>

  /** What `debuginfo_rip` fills in for an instruction address. */
  datatype RipInfo = RipInfo(
    file: string,
    line: int,
    fnName: string,
    fnNameLen: int,
    fnAddr: Word,
    narg: int)

  /** One reported frame: the values the source prints for it. */
  datatype Report = Report(
    rbp: Word,
    rip: Word,
    file: string,
    line: int,
    fnName: string,
    fnNameLen: int,
    offset: Word,
    narg: int,
    args: seq<nat>)

  /** Address arithmetic wraps modulo 2^64. */
  function AddrAdd(a: Word, k: int): Word
  {
    (a + k) % WordModulus
  }

  /** Address of the i-th argument slot below the frame pointer:
      `(int *)rbp - i`. */
  function ArgAddr(fp: Word, i: int): Word
  {
    AddrAdd(fp, -4 * i)
  }

  function Pow256(n: nat): (p: nat)
    ensures p > 0
  {
    if n == 0 then 1 else 256 * Pow256(n - 1)
  }

  /** The `n` bytes starting at `a` are readable. */
  ghost predicate Mapped(mem: Memory, a: Word, n: nat)
    decreases n
  {
    n == 0 || (a in mem && Mapped(mem, AddrAdd(a, 1), n - 1))
  }

  /** Little-endian load of `n` bytes starting at `a`. */
  function Load(mem: Memory, a: Word, n: nat): (v: nat)
    requires Mapped(mem, a, n)
    ensures v < Pow256(n)
    decreases n
  {
    if n == 0 then 0
    else
      var rest := Load(mem, AddrAdd(a, 1), n - 1);
      assert rest <= Pow256(n - 1) - 1;
      mem[a] + 256 * rest
  }

  /** A 64-bit load. */
  function Load64(mem: Memory, a: Word): Word
    requires Mapped(mem, a, 8)
  {
    assert Pow256(8) == WordModulus;
    Load(mem, a, 8)
  }

  /** A 32-bit load, as an unsigned bit pattern. */
  function Load32(mem: Memory, a: Word): (v: nat)
    requires Mapped(mem, a, 4)
    ensures v < 0x1_0000_0000
  {
    assert Pow256(4) == 0x1_0000_0000;
    Load(mem, a, 4)
  }

  /** The argument slots 1..narg below `fp` are readable. */
  ghost predicate ArgsMapped(mem: Memory, fp: Word, narg: int)
  {
    forall i :: 1 <= i <= narg ==> Mapped(mem, ArgAddr(fp, i), 4)
  }

  /** Everything the walker reads for the frame at `fp` is readable: the
      saved frame pointer, the saved instruction pointer, and the slots of
      the arguments the resolver announced. */
  ghost predicate FrameReadable(mem: Memory, fp: Word, narg: int)
  {
    Mapped(mem, fp, 8) && Mapped(mem, AddrAdd(fp, 8), 8) && ArgsMapped(mem, fp, narg)
  }

  /** `*rbp`: the caller's frame pointer. */
  function SavedFp(mem: Memory, fp: Word): Word
    requires Mapped(mem, fp, 8)
  {
    Load64(mem, fp)
  }

  /** `*(rbp + 1)`: the return address into the caller. */
  function SavedRip(mem: Memory, fp: Word): Word
    requires Mapped(mem, AddrAdd(fp, 8), 8)
  {
    Load64(mem, AddrAdd(fp, 8))
  }

  /**
   * `frames` is the frame-pointer chain from `fp`: each frame is nonzero and
   * readable, the next one is the saved frame pointer, and the chain ends
   * where the saved frame pointer is zero. `rip` is the instruction pointer
   * resolved for the first frame.
   */
  ghost predicate IsChain(mem: Memory, resolve: Word -> RipInfo, fp: Word, rip: Word, frames: seq<Word>)
    decreases |frames|
  {
    if frames == [] then fp == 0
    else
      fp != 0 && frames[0] == fp && FrameReadable(mem, fp, resolve(rip).narg) &&
      IsChain(mem, resolve, SavedFp(mem, fp), SavedRip(mem, fp), frames[1..])
  }

  /** The argument words 1..n, in the order they are printed. */
  function ArgWords(mem: Memory, fp: Word, n: nat): (r: seq<nat>)
    requires ArgsMapped(mem, fp, n)
    ensures |r| == n
    ensures forall i :: 1 <= i <= n ==> r[i - 1] == Load32(mem, ArgAddr(fp, i))
  {
    if n == 0 then [] else ArgWords(mem, fp, n - 1) + [Load32(mem, ArgAddr(fp, n))]
  }

  /** Number of arguments the loop `for (i = 1; i <= narg; i++)` prints. */
  function ArgCount(narg: int): nat
  {
    if narg < 0 then 0 else narg
  }

  /** `rip - rip_fn_addr` in uint64_t arithmetic. */
  function Offset(rip: Word, fnAddr: Word): Word
  {
    (rip - fnAddr) % WordModulus
  }

  /** Adding the offset back to the function's start gives the
      instruction pointer again. */
  lemma OffsetAdds(rip: Word, fnAddr: Word)
    ensures (Offset(rip, fnAddr) + fnAddr) % WordModulus == rip
  {
    if rip >= fnAddr {
      assert Offset(rip, fnAddr) == rip - fnAddr;
    } else {
      assert Offset(rip, fnAddr) == rip - fnAddr + WordModulus;
    }
  }

  /** The report of the frame at `fp` whose instruction pointer is `rip`:
      the offset added back to the function's start gives `rip`, and the
      i-th argument is the 32-bit word at rbp - 4*i. */
  function FrameReport(mem: Memory, info: RipInfo, fp: Word, rip: Word): (rep: Report)
    requires ArgsMapped(mem, fp, info.narg)
    ensures rep.rbp == fp && rep.rip == rip
    ensures rep.file == info.file && rep.line == info.line && rep.narg == info.narg
    ensures rep.fnName == info.fnName && rep.fnNameLen == info.fnNameLen
    ensures (rep.offset + info.fnAddr) % WordModulus == rip
    ensures |rep.args| == ArgCount(info.narg)
    ensures forall i :: 1 <= i <= |rep.args| ==> rep.args[i - 1] == Load32(mem, ArgAddr(fp, i))
  {
    OffsetAdds(rip, info.fnAddr);
    Report(fp, rip, info.file, info.line, info.fnName, info.fnNameLen,
           Offset(rip, info.fnAddr), info.narg, ArgWords(mem, fp, ArgCount(info.narg)))
  }

  /** The reports of the whole walk over `frames`. */
  ghost function Walk(mem: Memory, resolve: Word -> RipInfo, fp: Word, rip: Word, frames: seq<Word>): seq<Report>
    requires IsChain(mem, resolve, fp, rip, frames)
    decreases |frames|
  {
    if frames == [] then []
    else
      [FrameReport(mem, resolve(rip), fp, rip)] +
      Walk(mem, resolve, SavedFp(mem, fp), SavedRip(mem, fp), frames[1..])
  }

  /** The instruction pointers the walker resolves, in order: the starting
      one, then each frame's saved return address. */
  ghost function Pcs(mem: Memory, resolve: Word -> RipInfo, fp: Word, rip: Word, frames: seq<Word>): seq<Word>
    requires IsChain(mem, resolve, fp, rip, frames)
    decreases |frames|
  {
    if frames == [] then []
    else [rip] + Pcs(mem, resolve, SavedFp(mem, fp), SavedRip(mem, fp), frames[1..])
  }

  /** One report and one resolver query per frame. */
  lemma {:induction false} WalkLength(mem: Memory, resolve: Word -> RipInfo, fp: Word, rip: Word,
                                      frames: seq<Word>)
    requires IsChain(mem, resolve, fp, rip, frames)
    ensures |Walk(mem, resolve, fp, rip, frames)| == |frames|
    ensures |Pcs(mem, resolve, fp, rip, frames)| == |frames|
    decreases |frames|
  {
    if frames != [] {
      WalkLength(mem, resolve, SavedFp(mem, fp), SavedRip(mem, fp), frames[1..]);
    }
  }

  /** The walk from frame `j` on is the walk over the suffix of the chain
      that starts there, entered with the j-th resolved instruction pointer. */
  lemma {:induction false} WalkAt(mem: Memory, resolve: Word -> RipInfo, fp: Word, rip: Word,
                                  frames: seq<Word>, j: nat)
    requires IsChain(mem, resolve, fp, rip, frames) && j < |frames|
    ensures |Walk(mem, resolve, fp, rip, frames)| == |Pcs(mem, resolve, fp, rip, frames)| == |frames|
    ensures var pc := Pcs(mem, resolve, fp, rip, frames)[j];
      IsChain(mem, resolve, frames[j], pc, frames[j..]) &&
      Walk(mem, resolve, fp, rip, frames)[j] == FrameReport(mem, resolve(pc), frames[j], pc)
    decreases j
  {
    WalkLength(mem, resolve, fp, rip, frames);
    if j > 0 {
      var fp', rip' := SavedFp(mem, fp), SavedRip(mem, fp);
      WalkAt(mem, resolve, fp', rip', frames[1..], j - 1);
      assert frames[1..][j - 1..] == frames[j..];
    }
  }

  /** Consecutive frames are linked through the saved words of the first. */
  lemma {:induction false} LinkAt(mem: Memory, resolve: Word -> RipInfo, fp: Word, rip: Word,
                                  frames: seq<Word>, j: nat)
    requires IsChain(mem, resolve, fp, rip, frames) && j + 1 < |frames|
    ensures |Pcs(mem, resolve, fp, rip, frames)| == |frames|
    ensures Mapped(mem, frames[j], 8) && Mapped(mem, AddrAdd(frames[j], 8), 8)
    ensures frames[j + 1] == SavedFp(mem, frames[j])
    ensures Pcs(mem, resolve, fp, rip, frames)[j + 1] == SavedRip(mem, frames[j])
    decreases j
  {
    WalkLength(mem, resolve, fp, rip, frames);
    var fp', rip' := SavedFp(mem, fp), SavedRip(mem, fp);
    if j == 0 {
      WalkLength(mem, resolve, fp', rip', frames[1..]);
    } else {
      LinkAt(mem, resolve, fp', rip', frames[1..], j - 1);
    }
  }

  /** The chain from a given frame pointer is determined by memory alone. */
  lemma {:induction false} ChainUnique(mem: Memory, resolve: Word -> RipInfo, fp: Word,
                                       rip1: Word, rip2: Word, a: seq<Word>, b: seq<Word>)
    requires IsChain(mem, resolve, fp, rip1, a) && IsChain(mem, resolve, fp, rip2, b)
    ensures a == b
    decreases |a|
  {
    if a != [] {
      assert b != [];
      ChainUnique(mem, resolve, SavedFp(mem, fp), SavedRip(mem, fp), SavedRip(mem, fp), a[1..], b[1..]);
    }
  }

  /** A zero-terminated chain visits no frame twice: the walk over it cannot
      have been cyclic. */
  lemma ChainAcyclic(mem: Memory, resolve: Word -> RipInfo, fp: Word, rip: Word, frames: seq<Word>)
    requires IsChain(mem, resolve, fp, rip, frames)
    ensures forall i, j :: 0 <= i < j < |frames| ==> frames[i] != frames[j]
  {
    forall i, j | 0 <= i < j < |frames| ensures frames[i] != frames[j] {
      WalkAt(mem, resolve, fp, rip, frames, i);
      WalkAt(mem, resolve, fp, rip, frames, j);
      if frames[i] == frames[j] {
        var pcs := Pcs(mem, resolve, fp, rip, frames);
        ChainUnique(mem, resolve, frames[i], pcs[i], pcs[j], frames[i..], frames[j..]);
        assert false;
      }
    }
  }

  /** The walk reports each frame of the chain once, in chain order, with a
      nonzero frame pointer and the instruction pointer it resolved; the
      fields of each report are those of FrameReport. */
  lemma WalkReports(mem: Memory, resolve: Word -> RipInfo, fp: Word, rip: Word, frames: seq<Word>)
    requires IsChain(mem, resolve, fp, rip, frames)
    ensures var w, pcs := Walk(mem, resolve, fp, rip, frames), Pcs(mem, resolve, fp, rip, frames);
      |w| == |pcs| == |frames| &&
      forall j :: 0 <= j < |w| ==>
        frames[j] != 0 && ArgsMapped(mem, frames[j], resolve(pcs[j]).narg) &&
        w[j] == FrameReport(mem, resolve(pcs[j]), frames[j], pcs[j])
  {
    WalkLength(mem, resolve, fp, rip, frames);
    forall j | 0 <= j < |frames|
      ensures var pcs := Pcs(mem, resolve, fp, rip, frames);
        frames[j] != 0 && ArgsMapped(mem, frames[j], resolve(pcs[j]).narg) &&
        Walk(mem, resolve, fp, rip, frames)[j] == FrameReport(mem, resolve(pcs[j]), frames[j], pcs[j])
    {
      WalkAt(mem, resolve, fp, rip, frames, j);
    }
  }

  /** The resolver is first queried with the starting instruction pointer;
      from each frame the walk moves to the saved frame pointer at rbp and
      the saved return address at rbp+8; the last frame saved zero. */
  lemma WalkLinks(mem: Memory, resolve: Word -> RipInfo, fp: Word, rip: Word, frames: seq<Word>)
    requires IsChain(mem, resolve, fp, rip, frames)
    ensures var pcs := Pcs(mem, resolve, fp, rip, frames);
      |pcs| == |frames| &&
      (|frames| > 0 ==> pcs[0] == rip) &&
      forall j :: 0 <= j < |frames| ==>
        Mapped(mem, frames[j], 8) && Mapped(mem, AddrAdd(frames[j], 8), 8) &&
        (j + 1 < |frames| ==> frames[j + 1] == SavedFp(mem, frames[j]) && pcs[j + 1] == SavedRip(mem, frames[j])) &&
        (j + 1 == |frames| ==> SavedFp(mem, frames[j]) == 0)
  {
    WalkLength(mem, resolve, fp, rip, frames);
    var pcs := Pcs(mem, resolve, fp, rip, frames);
    forall j | 0 <= j < |frames|
      ensures Mapped(mem, frames[j], 8) && Mapped(mem, AddrAdd(frames[j], 8), 8) &&
        (j + 1 < |frames| ==> frames[j + 1] == SavedFp(mem, frames[j]) && pcs[j + 1] == SavedRip(mem, frames[j])) &&
        (j + 1 == |frames| ==> SavedFp(mem, frames[j]) == 0)
    {
      WalkAt(mem, resolve, fp, rip, frames, j);
      if j + 1 < |frames| {
        LinkAt(mem, resolve, fp, rip, frames, j);
      } else {
        assert frames[j..][1..] == [];
      }
    }
  }

  /** One step of the walk: report the first frame, then continue from the
      saved frame pointer and return address. */
  lemma WalkStep(mem: Memory, resolve: Word -> RipInfo, fp: Word, rip: Word, frames: seq<Word>)
    returns (tail: seq<Word>)
    requires IsChain(mem, resolve, fp, rip, frames) && fp != 0
    ensures |tail| < |frames| && FrameReadable(mem, fp, resolve(rip).narg)
    ensures IsChain(mem, resolve, SavedFp(mem, fp), SavedRip(mem, fp), tail)
    ensures Walk(mem, resolve, fp, rip, frames) ==
      [FrameReport(mem, resolve(rip), fp, rip)] + Walk(mem, resolve, SavedFp(mem, fp), SavedRip(mem, fp), tail)
  {
    tail := frames[1..];
  }

  /** The argument loop `for (i = 1; i <= narg; i++)` of one frame. */
  method ReadArgs(mem: Memory, fp: Word, narg: int) returns (args: seq<nat>)
    requires ArgsMapped(mem, fp, narg)
    ensures args == ArgWords(mem, fp, ArgCount(narg))
  {
    args := [];
    var i := 1;
    while i <= narg
      invariant 1 <= i <= ArgCount(narg) + 1
      invariant args == ArgWords(mem, fp, i - 1)
    {
      args := args + [Load32(mem, ArgAddr(fp, i))];
      i := i + 1;
    }
  }

  /**
   * `mon_backtrace`. The register reads become the parameters `rbp` and
   * `rip`; `frames` is the (ghost) chain the frame pointer leads through.
   */
  method MonBacktrace(mem: Memory, resolve: Word -> RipInfo, rbp: Word, rip: Word, ghost frames: seq<Word>)
    returns (r: int, reports: seq<Report>)
    requires IsChain(mem, resolve, rbp, rip, frames)
    ensures r == 0
    ensures reports == Walk(mem, resolve, rbp, rip, frames)
  {
    var rbpBase, ripValue := rbp, rip;
    ghost var rest := frames;
    reports := [];
    while rbpBase != 0
      invariant IsChain(mem, resolve, rbpBase, ripValue, rest)
      invariant reports + Walk(mem, resolve, rbpBase, ripValue, rest) == Walk(mem, resolve, rbp, rip, frames)
      decreases |rest|
    {
      var info := resolve(ripValue);
      ghost var tail := WalkStep(mem, resolve, rbpBase, ripValue, rest);
      var args := ReadArgs(mem, rbpBase, info.narg);
      var report := Report(rbpBase, ripValue, info.file, info.line, info.fnName, info.fnNameLen,
                           Offset(ripValue, info.fnAddr), info.narg, args);
      assert report == FrameReport(mem, info, rbpBase, ripValue);
      reports := reports + [report];
      ripValue := Load64(mem, AddrAdd(rbpBase, 8));
      rbpBase := Load64(mem, rbpBase);
      rest := tail;
    }
    r := 0;
  }
}
