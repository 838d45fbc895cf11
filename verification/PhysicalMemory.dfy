/**
 * Directly addressable physical memory, seen as 4 KB frames of 512 eight-byte words
 * (include/paging.h:6-7). Frame `f` starts at byte address `4096 * f`.
 */
module PhysicalMemory {
  import opened Words

  const PAGE_SIZE: nat := 4096
  const ENTRIES: nat := 512

  function ZeroFrame(): (s: seq<U64>)
    ensures |s| == 512 && forall i :: 0 <= i < 512 ==> s[i] == 0
  {
    seq(ENTRIES, i => 0)
  }

  type Frame = s: seq<U64> | |s| == 512 witness ZeroFrame()
  type Memory = map<nat, Frame>

  /** A frame that no map entry describes reads as zero; every content is expressible. */
  function FrameAt(m: Memory, f: nat): Frame {
    if f in m then m[f] else ZeroFrame()
  }

  function Entry(m: Memory, f: nat, i: nat): U64
    requires i < ENTRIES
  {
    FrameAt(m, f)[i]
  }

  function Write(m: Memory, f: nat, i: nat, e: U64): Memory
    requires i < ENTRIES
  {
    m[f := FrameAt(m, f)[i := e]]
  }

  /** `memset(page, 0, PAGE_SIZE)`. */
  function Zeroed(m: Memory, f: nat): Memory {
    m[f := ZeroFrame()]
  }
}
