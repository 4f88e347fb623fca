/**
  The byte-copy loop of libkmem_copy_to_user (src/libmem.c:721-749); the routine
  named libkmem_copy_from_user has the same body (src/libmem.c:690-719) and so also
  copies from the kernel to the user.
 */
module UserCopy {
  import opened Collections
  import opened CNumbers
  import opened Devices
  import opened Paging
  import opened MemorySystem

  /** The i-th offset, a 32-bit sum. */
  function Index(off: nat, i: nat): nat { (off + i) % 0x1_0000_0000 }

  /** One round: read the kernel byte at offset x, write it to the user region. */
  function Round(s: System, pid: nat, src: int, dst: int, x: nat): (res: (System, bool))
    ensures res.0 == s.(mem := res.0.mem)
  {
    var k := StepKAccess(s, src, x, None).1;
    if !k.Value? then (s, false)
    else
      var (s', r) := StepAccess(s, pid, dst, x, Some(k.b));
      (s', r == Done)
  }

  lemma RoundInv(s: System, pid: nat, src: int, dst: int, x: nat)
    requires Inv(s) && pid in s.areas
    ensures Inv(Round(s, pid, src, dst, x).0)
  {
    var k := StepKAccess(s, src, x, None).1;
    if k.Value? { AccessInv(s, pid, dst, x, Some(k.b)); }
  }

  /** What is at a location: None where no page is mapped. */
  function ByteAt(m: Sys, l: Loc): Option<Byte> {
    if l.off < 4096 && m.Content(l.page).Some? then Some(m.Content(l.page).value[l.off]) else None
  }

  // The comparisons with true keep the verifier from unfolding these predicates at each use.

  /** s' differs from s at most at location t, and no kernel byte differs. */
  ghost predicate OnlyAt(s: Sys, s': Sys, t: Loc) {
    (&& (forall l: Loc :: l.page in s.pt && l != t ==> ByteAt(s', l) == ByteAt(s, l))
     && (forall l: Loc :: l.page.sp == Kernel ==> ByteAt(s', l) == ByteAt(s, l))) == true
  }

  lemma TouchBytes(s: System, l: Loc, frame: Option<nat>, b: Byte)
    requires s.mem.Ok() && FrameOf(s, l, frame) && l.page.sp != Kernel
    ensures var (s', r) := TouchFrame(s, frame, l.off, Some(b));
            && OnlyAt(s.mem, s'.mem, l) && s'.mem.pt == s.mem.pt
            && (r == Done ==> ByteAt(s'.mem, l) == Some(b)) && (r != Done ==> r == Failed && s' == s)
  {
    if frame.Some? && frame.value < |s.mem.ram.pages| {
      assert InRam(s.mem.pt, l.page) && s.mem.pt[l.page].fpn == frame.value;
      ByteWritten(s.mem, l, frame.value, b);
    }
  }

  lemma ByteWritten(m: Sys, l: Loc, f: nat, b: Byte)
    requires m.Ok() && l.off < 4096 && l.page.sp != Kernel && InRam(m.pt, l.page) && m.pt[l.page].fpn == f
    ensures var m' := m.WriteByte(f, l.off, b);
            OnlyAt(m, m', l) && m'.pt == m.pt && ByteAt(m', l) == Some(b)
  {
    WriteByteOk(m, l.page, l.off, b);
  }

  lemma FaultBytes(s: Sys, a: Page, s': Sys, r: Option<nat>, t: Loc)
    requires Keeps(s, s') && a.sp != Kernel
    requires s'.pt.Keys == s.pt.Keys || s'.pt.Keys == s.pt.Keys + {a}
    ensures OnlyAt(s, s', t) && s.pt.Keys <= s'.pt.Keys
  {
    forall l: Loc | l.page.sp == Kernel ensures ByteAt(s', l) == ByteAt(s, l) {
      assert l.page in s.pt.Keys <==> l.page in s'.pt.Keys;
    }
  }

  /** What a user write to location l, successful or not, may have done. */
  ghost predicate WroteAt(m: Sys, m': Sys, l: Loc, b: Byte, r: Outcome) {
    (&& OnlyAt(m, m', l) && m.pt.Keys <= m'.pt.Keys
     && (r == Done ==> ByteAt(m', l) == Some(b))
     && (r != Done ==> forall l': Loc :: l'.page in m.pt ==> ByteAt(m', l') == ByteAt(m, l'))) == true
  }

  lemma WriteAfterFault(s: Sys, t: System, l: Loc, frame: Option<nat>, b: Byte)
    requires t.mem.Ok() && FrameOf(t, l, frame) && l.page.sp != Kernel
    requires OnlyAt(s, t.mem, l) && s.pt.Keys <= t.mem.pt.Keys && Keeps(s, t.mem)
    ensures WroteAt(s, TouchFrame(t, frame, l.off, Some(b)).0.mem, l, b, TouchFrame(t, frame, l.off, Some(b)).1)
  {
    TouchBytes(t, l, frame, b);
    var (t', r) := TouchFrame(t, frame, l.off, Some(b));
    WroteAfter(s, t.mem, t'.mem, l, b, r);
  }

  lemma WroteAfter(s: Sys, m: Sys, m': Sys, l: Loc, b: Byte, r: Outcome)
    requires OnlyAt(s, m, l) && s.pt.Keys <= m.pt.Keys && Keeps(s, m) && OnlyAt(m, m', l) && m'.pt == m.pt
    requires r == Done ==> ByteAt(m', l) == Some(b)
    requires r != Done ==> m' == m
    ensures WroteAt(s, m', l, b, r)
  {
    forall l': Loc | l'.page in s.pt && l' != l ensures ByteAt(m', l') == ByteAt(s, l') {
      assert l'.page in m.pt;
    }
  }

  lemma FaultFor(s: System, l: Loc, m: Sys, f: Option<nat>)
    requires Faulted(s.mem, l.page, m, f) && l.off < 4096 && l.page.sp != Kernel
    ensures m.Ok() && FrameOf(s.(mem := m), l, f)
    ensures OnlyAt(s.mem, m, l) && s.mem.pt.Keys <= m.pt.Keys && Keeps(s.mem, m)
  {
    FaultBytes(s.mem, l.page, m, f, l);
  }

  /** A user write changes at most the byte it names. */
  lemma WriteOneByte(s: System, pid: nat, rgid: int, off: nat, b: Byte)
    requires Inv(s) && pid in s.areas && Resolve(s.areas[pid].sym, rgid, off).Some?
    ensures var (s', r) := StepAccess(s, pid, rgid, off, Some(b));
            WroteAt(s.mem, s'.mem, LocOf(User(pid), Resolve(s.areas[pid].sym, rgid, off).value), b, r)
  {
    var l := LocOf(User(pid), Resolve(s.areas[pid].sym, rgid, off).value);
    var (m, f) := s.mem.GetPage(l.page);
    UserPage(s, pid, rgid, off);
    GetPageRefines(s.mem, l.page);
    FaultFor(s, l, m, f);
    WriteAfterFault(s.mem, s.(mem := m), l, f, b);
  }

  function Vaddr(l: Loc): nat { l.page.pgn * 4096 + l.off }

  /** Location l is one of the n destination bytes from address to on. */
  predicate InDest(l: Loc, pid: nat, to: nat, n: nat) {
    l.page.sp == User(pid) && to <= Vaddr(l) < to + n
  }

  /** Nothing that was mapped has changed. */
  ghost predicate SameBytes(m: Sys, m': Sys) {
    (&& m.pt.Keys <= m'.pt.Keys
     && (forall l: Loc :: l.page.sp == Kernel ==> ByteAt(m', l) == ByteAt(m, l))
     && (forall l: Loc :: l.page in m.pt ==> ByteAt(m', l) == ByteAt(m, l))) == true
  }

  ghost predicate CopiedByte(m: Sys, m': Sys, pid: nat, to: nat, from: nat, j: nat) {
    var b := ByteAt(m, LocOf(Kernel, from + j));
    b.Some? && ByteAt(m', LocOf(User(pid), to + j)) == b
  }

  /** The first n bytes at user address to equal those at kernel address from before the
      copy, and nothing else that was mapped has changed. */
  ghost predicate Copied(m: Sys, m': Sys, pid: nat, to: nat, from: nat, n: nat) {
    (&& m.pt.Keys <= m'.pt.Keys
     && (forall j :: 0 <= j < n ==> CopiedByte(m, m', pid, to, from, j))
     && (forall l: Loc :: l.page.sp == Kernel ==> ByteAt(m', l) == ByteAt(m, l))
     && (forall l: Loc :: l.page in m.pt && l.off < 4096 && !InDest(l, pid, to, n) ==>
           ByteAt(m', l) == ByteAt(m, l))) == true
  }

  lemma CopiedSnoc(m: Sys, m1: Sys, m': Sys, pid: nat, to: nat, from: nat, n: nat)
    requires Copied(m, m1, pid, to, from, n)
    requires m1.pt.Keys <= m'.pt.Keys && OnlyAt(m1, m', LocOf(User(pid), to + n))
    requires CopiedByte(m1, m', pid, to, from, n)
    ensures Copied(m, m', pid, to, from, n + 1)
  {
    var t := LocOf(User(pid), to + n);
    assert Vaddr(t) == to + n && t.off < 4096;
    forall j | 0 <= j < n + 1 ensures CopiedByte(m, m', pid, to, from, j) {
      if j < n {
        assert CopiedByte(m, m1, pid, to, from, j);
        var l := LocOf(User(pid), to + j);
        assert Vaddr(l) == to + j && l.page in m1.pt;
      }
    }
    forall l: Loc | l.page in m.pt && l.off < 4096 && !InDest(l, pid, to, n + 1) ensures ByteAt(m', l) == ByteAt(m, l) {
      assert l != t && l.page in m1.pt && !InDest(l, pid, to, n);
    }
  }

  lemma CopiedSame(m: Sys, m1: Sys, m': Sys, pid: nat, to: nat, from: nat, n: nat)
    requires Copied(m, m1, pid, to, from, n) && SameBytes(m1, m')
    ensures Copied(m, m', pid, to, from, n)
  {
    forall j | 0 <= j < n ensures CopiedByte(m, m', pid, to, from, j) {
      assert CopiedByte(m, m1, pid, to, from, j);
      assert LocOf(User(pid), to + j).page in m1.pt;
    }
    forall l: Loc | l.page in m.pt && l.off < 4096 && !InDest(l, pid, to, n) ensures ByteAt(m', l) == ByteAt(m, l) {
      assert l.page in m1.pt;
    }
  }

  /** The two regions of a copy: where they start and how long they are. */
  datatype Spans = Spans(to: nat, toLen: nat, from: nat, fromLen: nat)

  function SpansOf(s: System, pid: nat, src: int, dst: int): Spans {
    Spans(Start(AreaOf(s, pid).sym, dst), Length(AreaOf(s, pid).sym, dst), Start(s.ksym, src), Length(s.ksym, src))
  }

  /** What one round at offset x leaves behind. */
  ghost predicate RoundDid(m: Sys, m': Sys, ok: bool, pid: nat, w: Spans, x: nat) {
    (&& m.pt.Keys <= m'.pt.Keys
     && (!ok ==> SameBytes(m, m'))
     && (ok ==> x < w.toLen <= TWO31 && x < w.fromLen && OnlyAt(m, m', LocOf(User(pid), w.to + x)))
     && (ok ==> CopiedByte(m, m', pid, w.to, w.from, x))) == true
  }

  /** Why a copy stops at offset x: it lies outside one of the regions, or the page that byte
      x would go to cannot be brought in. */
  predicate Stopped(m: Sys, pid: nat, w: Spans, x: nat) {
    x >= w.fromLen || x >= w.toLen || OutOfMemory(m, Page(User(pid), (w.to + x) / 4096))
  }

  lemma RoundFrom(m: Sys, m': Sys, pid: nat, w: Spans, x: nat, b: Byte, r: Outcome)
    requires ReadDid(m, w, x, b)
    requires WriteDid(m, m', pid, w, x, b, r)
    ensures RoundDid(m, m', r == Done, pid, w, x)
  {
  }

  lemma RoundRead(s: System, pid: nat, src: int, dst: int, x: nat)
    requires StepKAccess(s, src, x, None).1.Value?
    ensures var w := SpansOf(s, pid, src, dst);
            ReadDid(s.mem, w, x, StepKAccess(s, src, x, None).1.b)
  {
  }

  lemma RoundWrite(s: System, pid: nat, w: Spans, dst: int, x: nat, b: Byte, s': System, r: Outcome)
    requires Inv(s) && pid in s.areas && Resolve(s.areas[pid].sym, dst, x).Some?
    requires w.to == Start(s.areas[pid].sym, dst) && w.toLen == Length(s.areas[pid].sym, dst)
    requires s' == StepAccess(s, pid, dst, x, Some(b)).0 && r == StepAccess(s, pid, dst, x, Some(b)).1
    ensures WriteDid(s.mem, s'.mem, pid, w, x, b, r)
  {
    WriteOneByte(s, pid, dst, x, b);
    RegionFits(s, pid, dst);
  }

  ghost predicate ReadDid(m: Sys, w: Spans, x: nat, b: Byte) {
    (x < w.fromLen && ByteAt(m, LocOf(Kernel, w.from + x)) == Some(b)) == true
  }

  ghost predicate WriteDid(m: Sys, m': Sys, pid: nat, w: Spans, x: nat, b: Byte, r: Outcome) {
    (x < w.toLen <= TWO31 && WroteAt(m, m', LocOf(User(pid), w.to + x), b, r)) == true
  }

  lemma RegionFits(s: System, pid: nat, rgid: int)
    requires Inv(s) && pid in s.areas
    ensures Length(s.areas[pid].sym, rgid) <= TWO31
  {
  }

  /** A round that reads nothing or may not write does nothing; any other is the write. */
  lemma RoundCases(s: System, pid: nat, src: int, dst: int, x: nat)
    requires pid in s.areas
    ensures var k := StepKAccess(s, src, x, None).1;
            var res := Round(s, pid, src, dst, x);
            && (!k.Value? || Resolve(s.areas[pid].sym, dst, x).None? ==> res.0 == s && !res.1)
            && (k.Value? ==> res.0 == StepAccess(s, pid, dst, x, Some(k.b)).0)
            && (k.Value? ==> (res.1 <==> StepAccess(s, pid, dst, x, Some(k.b)).1 == Done))
  {
  }

  lemma RoundDone(s: System, pid: nat, src: int, dst: int, x: nat, b: Byte, s': System, r: Outcome)
    requires Inv(s) && pid in s.areas && StepKAccess(s, src, x, None).1 == Value(b)
    requires Resolve(s.areas[pid].sym, dst, x).Some?
    requires s' == StepAccess(s, pid, dst, x, Some(b)).0 && r == StepAccess(s, pid, dst, x, Some(b)).1
    ensures RoundDid(s.mem, s'.mem, r == Done, pid, SpansOf(s, pid, src, dst), x)
  {
    var w := SpansOf(s, pid, src, dst);
    RoundWrite(s, pid, w, dst, x, b, s', r);
    RoundRead(s, pid, src, dst, x);
    RoundFrom(s.mem, s'.mem, pid, w, x, b, r);
  }

  lemma RoundOk(s: System, pid: nat, src: int, dst: int, x: nat)
    requires Inv(s) && pid in s.areas
    ensures var res := Round(s, pid, src, dst, x);
            RoundDid(s.mem, res.0.mem, res.1, pid, SpansOf(s, pid, src, dst), x)
  {
    var k := StepKAccess(s, src, x, None).1;
    RoundCases(s, pid, src, dst, x);
    if k.Value? && Resolve(s.areas[pid].sym, dst, x).Some? {
      var (s', r) := StepAccess(s, pid, dst, x, Some(k.b));
      RoundDone(s, pid, src, dst, x, k.b, s', r);
    } else {
      RoundNone(s.mem, pid, SpansOf(s, pid, src, dst), x);
    }
  }

  lemma RoundNone(m: Sys, pid: nat, w: Spans, x: nat)
    ensures RoundDid(m, m, false, pid, w, x)
  {
  }

  /** The first n bytes of the copy are done, and they fit both regions. */
  ghost predicate CopyDid(m: Sys, m': Sys, pid: nat, w: Spans, off: nat, n: nat) {
    (&& (0 < n ==> off + n <= w.toLen <= TWO31 && off + n <= w.fromLen)
     && Copied(m, m', pid, w.to + off, w.from + off, n)) == true
  }

  /** A round at offset off + n, seen from the addresses where the copy starts. */
  lemma ShiftRound(m: Sys, m': Sys, pid: nat, w: Spans, off: nat, n: nat, x: nat, to: nat, from: nat)
    requires RoundDid(m, m', true, pid, w, x) && x == off + n && to == w.to + off && from == w.from + off
    ensures m.pt.Keys <= m'.pt.Keys && OnlyAt(m, m', LocOf(User(pid), to + n)) && CopiedByte(m, m', pid, to, from, n)
  {
    assert w.to + x == to + n && w.from + x == from + n;
  }

  lemma CopiedOne(m: Sys, m1: Sys, m': Sys, pid: nat, w: Spans, off: nat, n: nat, x: nat, to: nat, from: nat)
    requires Copied(m, m1, pid, to, from, n) && RoundDid(m1, m', true, pid, w, x) && x == off + n
    requires to == w.to + off && from == w.from + off
    ensures Copied(m, m', pid, to, from, n + 1)
  {
    ShiftRound(m1, m', pid, w, off, n, x, to, from);
    CopiedSnoc(m, m1, m', pid, to, from, n);
  }

  lemma RoundBounds(m: Sys, m': Sys, pid: nat, w: Spans, x: nat)
    requires RoundDid(m, m', true, pid, w, x)
    ensures x < w.toLen <= TWO31 && x < w.fromLen
  {
  }

  lemma CopyIs(m: Sys, m': Sys, pid: nat, w: Spans, off: nat, n: nat, to: nat, from: nat)
    requires to == w.to + off && from == w.from + off
    ensures CopyDid(m, m', pid, w, off, n) <==>
            (0 < n ==> off + n <= w.toLen <= TWO31 && off + n <= w.fromLen) && Copied(m, m', pid, to, from, n)
  {
  }

  lemma CopyOne(m: Sys, m1: Sys, m': Sys, pid: nat, w: Spans, off: nat, n: nat, x: nat)
    requires CopyDid(m, m1, pid, w, off, n) && RoundDid(m1, m', true, pid, w, x) && x == off + n
    ensures CopyDid(m, m', pid, w, off, n + 1)
  {
    var to, from := w.to + off, w.from + off;
    RoundBounds(m1, m', pid, w, x);
    CopyIs(m, m1, pid, w, off, n, to, from);
    CopiedOne(m, m1, m', pid, w, off, n, x, to, from);
    CopyIs(m, m', pid, w, off, n + 1, to, from);
  }

  lemma CopyNone(m: Sys, m1: Sys, m': Sys, pid: nat, w: Spans, off: nat, n: nat)
    requires CopyDid(m, m1, pid, w, off, n) && RoundDid(m1, m', false, pid, w, off + n)
    ensures CopyDid(m, m', pid, w, off, n)
  {
    CopiedSame(m, m1, m', pid, w.to + off, w.from + off, n);
  }

  /** A round after n copied bytes leaves n + 1 copied, or n if it failed. */
  lemma CopySnoc(m: Sys, m1: Sys, m': Sys, ok: bool, pid: nat, w: Spans, off: nat, n: nat, x: nat)
    requires CopyDid(m, m1, pid, w, off, n) && RoundDid(m1, m', ok, pid, w, x) && x == off + n
    ensures CopyDid(m, m', pid, w, off, if ok then n + 1 else n)
  {
    if ok {
      CopyOne(m, m1, m', pid, w, off, n, x);
    } else {
      CopyNone(m, m1, m', pid, w, off, n);
    }
  }

  lemma CopyStart(m: Sys, pid: nat, w: Spans, off: nat)
    ensures CopyDid(m, m, pid, w, off, 0)
  {
  }

  /** What a call leaves behind: n of size bytes are copied, all of them and not 0 exactly if it
      succeeds, and fewer only where it was stopped. */
  ghost predicate Copies(m: Sys, m': Sys, pid: nat, w: Spans, off: nat, size: nat, ok: bool, n: nat) {
    (&& n <= size && (ok <==> 0 < size == n) && CopyDid(m, m', pid, w, off, n)
     && (n < size ==> Stopped(m', pid, w, off + n))) == true
  }

  lemma CopyStopped(m: Sys, m': Sys, pid: nat, w: Spans, off: nat, size: nat, n: nat, x: nat)
    requires CopyDid(m, m', pid, w, off, n) && Stopped(m', pid, w, x) && x == off + n && n < size
    ensures Copies(m, m', pid, w, off, size, false, n)
  {
  }

  lemma CopyEnd(m: Sys, m': Sys, pid: nat, w: Spans, off: nat, size: nat)
    requires CopyDid(m, m', pid, w, off, size)
    ensures Copies(m, m', pid, w, off, size, size > 0, size)
  {
  }

  /** A copy that stopped early was stopped; so with both ranges in bounds, and no page of the
      destination out of memory, it is complete. */
  lemma CopyCompletes(m: Sys, m': Sys, pid: nat, w: Spans, off: nat, size: nat, ok: bool, n: nat)
    requires Copies(m, m', pid, w, off, size, ok, n)
    requires 0 < size && off + size <= w.fromLen && off + size <= w.toLen
    requires forall p :: (w.to + off) / 4096 <= p <= (w.to + off + size) / 4096 ==> !OutOfMemory(m', Page(User(pid), p))
    ensures ok && n == size
  {
  }
}
