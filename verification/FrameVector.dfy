/**
 The kernel's frame vector: an array of words that are page frame numbers or page pointers,
 changed from one to the other in place, with page references that must balance.
 */
module FrameVector {
  import opened Bytes

  const EINVAL: int := 22
  const EFAULT: int := 14
  const EOPNOTSUPP: int := 95
  const INT_MAX: nat := 0x7FFF_FFFF
  const WORD_SIZE: nat := 8

  /** A word of the array: uninitialised, a page frame number, or a pointer to the page with that number. */
  datatype Word = Garbage | Pfn(n: nat) | Page(n: nat)

  /** All words in one representation. */
  predicate Uniform(ws: seq<Word>, pfns: bool) {
    forall i | 0 <= i < |ws| :: if pfns then ws[i].Pfn? else ws[i].Page?
  }

  function Number(w: Word): nat {
    if w.Garbage? then 0 else w.n
  }

  function Numbers(ws: seq<Word>): (r: seq<nat>)
    ensures |r| == |ws|
  {
    seq(|ws|, i requires 0 <= i < |ws| => Number(ws[i]))
  }

  predicate HavePages(frames: seq<nat>, validPfns: set<nat>) {
    forall p | p in frames :: p in validPfns
  }

  lemma NoWords(pfns: bool, validPfns: set<nat>)
    ensures Uniform([], pfns) && Numbers([]) == [] && HavePages([], validPfns)
  {
  }

  lemma NumbersOfPages(ws: seq<Word>, pages: seq<nat>)
    requires |ws| == |pages| && forall i | 0 <= i < |ws| :: ws[i] == Page(pages[i])
    ensures Uniform(ws, false) && Numbers(ws) == pages
  {
  }

  lemma NumbersOfPfns(ws: seq<Word>, frames: seq<nat>)
    requires |ws| == |frames| && forall i | 0 <= i < |ws| :: ws[i] == Pfn(frames[i])
    ensures Uniform(ws, true) && Numbers(ws) == frames
  {
  }

  /** A virtual memory area; `special` is VM_IO or VM_PFNMAP. */
  datatype Vma = Vma(start: nat, end: nat, special: bool, fsdax: bool)

  /** The address space: its areas in order, and the addresses at which follow_pfn succeeds. */
  datatype Mm = Mm(page: nat, vmas: seq<Vma>, frames: map<nat, nat>, followErr: int)

  predicate ValidMm(mm: Mm) {
    && mm.page > 0 && mm.followErr < 0
    && (forall i | 0 <= i < |mm.vmas| :: mm.vmas[i].start < mm.vmas[i].end)
    && (forall i, j | 0 <= i < j < |mm.vmas| :: mm.vmas[i].end <= mm.vmas[j].start)
  }

  // ----- find_vma_intersection(mm, a, a + 1) -----

  /** The first area that ends beyond a, from index i on. */
  function FirstEndingAfter(vmas: seq<Vma>, a: nat, i: nat): (k: nat)
    requires i <= |vmas|
    ensures i <= k <= |vmas|
    ensures forall j | i <= j < k :: vmas[j].end <= a
    ensures k < |vmas| ==> a < vmas[k].end
    decreases |vmas| - i
  {
    if i == |vmas| || a < vmas[i].end then i else FirstEndingAfter(vmas, a, i + 1)
  }

  datatype Found = None | Some(vma: Vma)

  function FindVma(mm: Mm, a: nat): Found {
    var k := FirstEndingAfter(mm.vmas, a, 0);
    if k < |mm.vmas| && mm.vmas[k].start <= a then Some(mm.vmas[k]) else None
  }

  predicate Contains(v: Vma, a: nat) {
    v.start <= a < v.end
  }

  lemma AreasApart(mm: Mm, i: nat, j: nat, a: nat)
    requires ValidMm(mm) && i <= j < |mm.vmas|
    requires a < mm.vmas[i].end && mm.vmas[j].start <= a
    ensures i == j
  {
  }

  /** The area found is the only one that contains the address. */
  lemma FindVmaExact(mm: Mm, a: nat)
    requires ValidMm(mm)
    ensures FindVma(mm, a).Some? ==> FindVma(mm, a).vma in mm.vmas && Contains(FindVma(mm, a).vma, a)
    ensures forall v | v in mm.vmas && Contains(v, a) :: FindVma(mm, a) == Some(v)
  {
    var k := FirstEndingAfter(mm.vmas, a, 0);
    forall v | v in mm.vmas && Contains(v, a)
      ensures FindVma(mm, a) == Some(v)
    {
      var j :| 0 <= j < |mm.vmas| && mm.vmas[j] == v;
      AreasApart(mm, k, j, a);
    }
  }

  // ----- which pages can be mapped -----

  /** A whole page at `a` inside one special area, with a frame behind it. */
  ghost predicate Mappable(mm: Mm, a: nat) {
    a in mm.frames && exists v :: v in mm.vmas && v.special && v.start <= a && a + mm.page <= v.end
  }

  function Address(mm: Mm, start: nat, i: nat): nat {
    start + i * mm.page
  }

  ghost function PrefixLength(mm: Mm, a: nat, cap: nat): nat
    decreases cap
  {
    if cap == 0 || !Mappable(mm, a) then 0 else 1 + PrefixLength(mm, a + mm.page, cap - 1)
  }

  /** PrefixLength is the length of the longest run of mappable pages, up to the cap. */
  lemma {:induction false} PrefixLongest(mm: Mm, a: nat, cap: nat)
    ensures var n := PrefixLength(mm, a, cap);
            && n <= cap
            && (forall i: nat | i < n :: Mappable(mm, Address(mm, a, i)))
            && (n < cap ==> !Mappable(mm, Address(mm, a, n)))
    decreases cap
  {
    hide Mappable;
    if cap > 0 && Mappable(mm, a) {
      var n := PrefixLength(mm, a + mm.page, cap - 1);
      PrefixLongest(mm, a + mm.page, cap - 1);
      forall i: nat | i < n + 1
        ensures Mappable(mm, Address(mm, a, i))
      {
        if i > 0 {
          AddressStep(mm, a, i - 1);
        }
      }
      AddressStep(mm, a, n);
    }
  }

  lemma AddressStep(mm: Mm, a: nat, i: nat)
    ensures Address(mm, a + mm.page, i) == Address(mm, a, i + 1) == Address(mm, a, i) + mm.page
    ensures Address(mm, a, 0) == a
  {
    assert (i + 1) * mm.page == i * mm.page + mm.page;
  }

  lemma MappableFound(mm: Mm, a: nat)
    requires ValidMm(mm) && Mappable(mm, a)
    ensures a in mm.frames && FindVma(mm, a).Some?
    ensures FindVma(mm, a).vma.special && a + mm.page <= FindVma(mm, a).vma.end
  {
    hide FindVma;
    var v :| v in mm.vmas && v.special && v.start <= a && a + mm.page <= v.end;
    FindVmaExact(mm, a);
    assert Contains(v, a);
  }

  /** The ways in which the walk learns that the page at `a` is not mappable. */
  lemma NotMappable(mm: Mm, a: nat)
    requires ValidMm(mm)
    requires a !in mm.frames || FindVma(mm, a).None? || !FindVma(mm, a).vma.special || FindVma(mm, a).vma.end < a + mm.page
    ensures !Mappable(mm, a)
  {
    hide FindVma, Mappable;
    if Mappable(mm, a) {
      MappableFound(mm, a);
    }
  }

  /** What is known while the walk stands at `a` with `done` pages recorded. */
  ghost predicate Walked(mm: Mm, start: nat, cap: nat, done: nat, a: nat, ws: seq<Word>) {
    && done <= cap <= |ws| && a == Address(mm, start, done)
    && done + PrefixLength(mm, a, cap - done) == PrefixLength(mm, start, cap)
    && forall i: nat | i < done :: Address(mm, start, i) in mm.frames && ws[i] == Pfn(mm.frames[Address(mm, start, i)])
  }

  lemma WalkStart(mm: Mm, start: nat, cap: nat, ws: seq<Word>)
    requires cap <= |ws|
    ensures Walked(mm, start, cap, 0, start, ws)
  {
    AddressStep(mm, start, 0);
  }

  lemma WalkPage(mm: Mm, start: nat, cap: nat, done: nat, a: nat, ws: seq<Word>, v: Vma)
    requires ValidMm(mm) && Walked(mm, start, cap, done, a, ws) && done < cap
    requires v in mm.vmas && v.special && v.start <= a && a + mm.page <= v.end && a in mm.frames
    ensures Walked(mm, start, cap, done + 1, a + mm.page, ws[done := Pfn(mm.frames[a])])
  {
    assert Mappable(mm, a);
    hide Address, Mappable;
    AddressStep(mm, start, done);
  }

  lemma WalkEnd(mm: Mm, start: nat, cap: nat, done: nat, a: nat, ws: seq<Word>)
    requires ValidMm(mm) && Walked(mm, start, cap, done, a, ws)
    requires done == cap || a !in mm.frames || FindVma(mm, a).None? || !FindVma(mm, a).vma.special
             || FindVma(mm, a).vma.end < a + mm.page
    ensures done == PrefixLength(mm, start, cap)
  {
    hide Mappable, FindVma;
    if done < cap {
      NotMappable(mm, a);
    }
  }

  /** The area found from inside an area is that area. */
  lemma FindHere(mm: Mm, v: Vma, a: nat)
    requires ValidMm(mm) && v in mm.vmas && Contains(v, a)
    ensures FindVma(mm, a) == Some(v)
  {
    FindVmaExact(mm, a);
  }

  lemma WalkDone(mm: Mm, start: nat, cap: nat, done: nat, a: nat, ws: seq<Word>)
    requires Walked(mm, start, cap, done, a, ws)
    ensures a == Address(mm, start, done)
  {
  }

  /** The frame numbers behind the first n pages of a mappable run. */
  ghost function FramesFrom(mm: Mm, start: nat, n: nat): (r: seq<nat>)
    ensures |r| == n
  {
    seq(n, i requires 0 <= i < n => FrameAt(mm, Address(mm, start, i)))
  }

  function FrameAt(mm: Mm, a: nat): nat {
    if a in mm.frames then mm.frames[a] else 0
  }

  /** A finished walk has recorded exactly the frames behind its pages. */
  lemma WalkedFrames(mm: Mm, start: nat, cap: nat, n: nat, ws: seq<Word>)
    requires Walked(mm, start, cap, n, Address(mm, start, n), ws)
    ensures n <= cap <= |ws| && Uniform(ws[..n], true)
    ensures Numbers(ws[..n]) == FramesFrom(mm, start, n)
  {
    hide Address, PrefixLength;
  }

  lemma WalkReported(mm: Mm, start: nat, cap: nat, ws: seq<Word>)
    requires var n := PrefixLength(mm, start, cap);
             n > 0 ==> Walked(mm, start, cap, n, Address(mm, start, n), ws)
    ensures var n := PrefixLength(mm, start, cap);
            n > 0 ==> n <= cap <= |ws| && Uniform(ws[..n], true) && Numbers(ws[..n]) == FramesFrom(mm, start, n)
  {
    hide PrefixLength, Walked, Uniform, Numbers, FramesFrom;
    var n := PrefixLength(mm, start, cap);
    if n > 0 {
      WalkedFrames(mm, start, cap, n, ws);
    }
  }

  /** What get_user_pages_locked returns: the pages it pinned, or an error. */
  datatype Gup = Pinned(pages: seq<nat>) | GupError(code: int)

  datatype Outcome = Failure(code: int) | Pins(pages: seq<nat>) | Borrows(pfns: seq<nat>)

  /** What mapping `cap` > 0 pages from `start` must come to. */
  ghost function Mapping(mm: Mm, start: nat, cap: nat, gup: Gup): Outcome {
    var f := FindVma(mm, start);
    if f.None? then Failure(-EFAULT)
    else if f.vma.fsdax then Failure(-EOPNOTSUPP)
    else if !f.vma.special then
      if gup.GupError? then Failure(gup.code)
      else if gup.pages == [] then Failure(-EFAULT)
      else Pins(gup.pages)
    else
      var n := PrefixLength(mm, start, cap);
      if n > 0 then Borrows(FramesFrom(mm, start, n))
      else Failure(if start + mm.page <= f.vma.end then mm.followErr else -EFAULT)
  }

  lemma PrefixPositive(mm: Mm, start: nat, cap: nat)
    requires cap > 0
    ensures PrefixLength(mm, start, cap) > 0 <==> Mappable(mm, start)
  {
  }

  /** The run of mappable pages at `start`, each with the frame behind it. */
  lemma RunExact(mm: Mm, start: nat, cap: nat)
    ensures var n := PrefixLength(mm, start, cap); var pfns := FramesFrom(mm, start, n);
            && |pfns| == n <= cap
            && (forall i: nat | i < n ::
                  && start + i * mm.page in mm.frames && Mappable(mm, start + i * mm.page)
                  && pfns[i] == mm.frames[start + i * mm.page])
            && (n < cap ==> !Mappable(mm, start + n * mm.page))
  {
    hide Mappable, PrefixLength, FrameAt;
    PrefixLongest(mm, start, cap);
    var n := PrefixLength(mm, start, cap);
    var pfns := FramesFrom(mm, start, n);
    forall i: nat | i < n
      ensures start + i * mm.page in mm.frames && Mappable(mm, start + i * mm.page)
      ensures pfns[i] == mm.frames[start + i * mm.page]
    {
      assert Mappable(mm, Address(mm, start, i));
      MappableFrame(mm, Address(mm, start, i));
    }
    assert Address(mm, start, n) == start + n * mm.page;
  }

  lemma MappableFrame(mm: Mm, a: nat)
    requires Mappable(mm, a)
    ensures a in mm.frames && FrameAt(mm, a) == mm.frames[a]
  {
  }

  /** The outcome in terms of the areas: the one that contains the address, and the run of mappable pages from there. */
  lemma MappingExact(mm: Mm, start: nat, cap: nat, gup: Gup)
    requires ValidMm(mm) && cap > 0
    ensures var m := Mapping(mm, start, cap, gup);
            && ((forall v | v in mm.vmas :: !Contains(v, start)) ==> m == Failure(-14))
            && forall v | v in mm.vmas && Contains(v, start) ::
                 if v.fsdax then m == Failure(-95)
                 else if !v.special then
                   m == if gup.GupError? then Failure(gup.code) else if gup.pages == [] then Failure(-14) else Pins(gup.pages)
                 else if !Mappable(mm, start) then m == Failure(if start + mm.page <= v.end then mm.followErr else -14)
                 else
                   && m.Borrows? && 0 < |m.pfns| <= cap
                   && (forall i: nat | i < |m.pfns| ::
                         && start + i * mm.page in mm.frames && Mappable(mm, start + i * mm.page)
                         && m.pfns[i] == mm.frames[start + i * mm.page])
                   && (|m.pfns| < cap ==> !Mappable(mm, start + |m.pfns| * mm.page))
  {
    hide Mappable, FindVma, PrefixLength, FramesFrom, Contains;
    FindVmaExact(mm, start);
    RunExact(mm, start, cap);
    PrefixPositive(mm, start, cap);
  }

  // ----- the vector -----

  class FrameVector {
    const validPfns: set<nat>  // pfn_valid
    var ptrs: array<Word>
    var nrAllocated: nat
    var nrFrames: nat
    var gotRef: bool
    var isPfns: bool
    // page references: every one taken, every one dropped
    ghost var taken: multiset<nat>
    ghost var dropped: multiset<nat>

    ghost predicate Valid()
      reads this, ptrs
    {
      && ptrs.Length == nrAllocated && nrFrames <= nrAllocated && 0 < nrAllocated <= INT_MAX / WORD_SIZE / 2
      && Uniform(ptrs[..nrFrames], isPfns)
      && (gotRef ==> HavePages(Frames(), validPfns))
      && taken == dropped + Held()
    }

    /** The frames recorded, whatever their representation. */
    ghost function Frames(): seq<nat>
      requires nrFrames <= ptrs.Length
      reads this, ptrs
    {
      Numbers(ptrs[..nrFrames])
    }

    /** The references the vector still has to drop; gotRef matters only when there are frames. */
    ghost function Held(): multiset<nat>
      requires nrFrames <= ptrs.Length
      reads this, ptrs
    {
      if gotRef then multiset(Frames()) else multiset{}
    }

    /** The allocation does not initialise the two flags. */
    constructor (n: nat, validPfns: set<nat>)
      requires 0 < n <= INT_MAX / WORD_SIZE / 2
      ensures Valid() && nrFrames == 0 && nrAllocated == n && this.validPfns == validPfns
      ensures taken == dropped == multiset{} && fresh(ptrs)
    {
      this.validPfns := validPfns;
      ptrs := new Word[n](_ => Garbage);
      nrAllocated, nrFrames := n, 0;
      gotRef, isPfns := *, *;
      taken, dropped := multiset{}, multiset{};
    }

    /** Turns page frame numbers into page pointers; fails without changing anything if one has no page. */
    method ToPages() returns (err: int)
      requires Valid()
      modifies this`isPfns, ptrs
      ensures Valid() && Frames() == old(Frames())
      ensures err == 0 <==> !old(isPfns) || HavePages(old(Frames()), validPfns)
      ensures err == 0 ==> !isPfns && (!old(isPfns) ==> ptrs[..] == old(ptrs[..]))
      ensures err != 0 ==> err == -22 && isPfns == old(isPfns) && ptrs[..] == old(ptrs[..])
    {
      if !isPfns {
        return 0;
      }
      ghost var frames := Frames();
      var i := 0;
      while i < nrFrames
        modifies {}
        invariant 0 <= i <= nrFrames
        invariant forall j | 0 <= j < i :: frames[j] in validPfns
      {
        assert Number(ptrs[i]) == frames[i];
        if ptrs[i].n !in validPfns {
          return -EINVAL;
        }
        i := i + 1;
      }
      ConvertToPages(frames);
      isPfns := false;
      return 0;
    }

    method ConvertToPages(ghost frames: seq<nat>)
      requires nrFrames <= ptrs.Length && Uniform(ptrs[..nrFrames], true) && frames == Numbers(ptrs[..nrFrames])
      modifies ptrs
      ensures Uniform(ptrs[..nrFrames], false) && Numbers(ptrs[..nrFrames]) == frames
    {
      assert forall j | 0 <= j < nrFrames :: ptrs[..nrFrames][j] == ptrs[j] == Pfn(frames[j]);
      var i := 0;
      while i < nrFrames
        invariant 0 <= i <= nrFrames
        invariant forall j | 0 <= j < i :: ptrs[j] == Page(frames[j])
        invariant forall j | i <= j < nrFrames :: ptrs[j] == Pfn(frames[j])
      {
        ptrs[i] := Page(ptrs[i].n);
        i := i + 1;
      }
      NumbersOfPages(ptrs[..nrFrames], frames);
    }

    method ToPfns()
      requires Valid()
      modifies this`isPfns, ptrs
      ensures Valid() && isPfns && Frames() == old(Frames())
      ensures old(isPfns) ==> ptrs[..] == old(ptrs[..])
    {
      if isPfns {
        return;
      }
      ConvertToPfns(Frames());
      isPfns := true;
    }

    method ConvertToPfns(ghost frames: seq<nat>)
      requires nrFrames <= ptrs.Length && Uniform(ptrs[..nrFrames], false) && frames == Numbers(ptrs[..nrFrames])
      modifies ptrs
      ensures Uniform(ptrs[..nrFrames], true) && Numbers(ptrs[..nrFrames]) == frames
    {
      assert forall j | 0 <= j < nrFrames :: ptrs[..nrFrames][j] == ptrs[j] == Page(frames[j]);
      var i := 0;
      while i < nrFrames
        invariant 0 <= i <= nrFrames
        invariant forall j | 0 <= j < i :: ptrs[j] == Pfn(frames[j])
        invariant forall j | i <= j < nrFrames :: ptrs[j] == Page(frames[j])
      {
        ptrs[i] := Pfn(ptrs[i].n);
        i := i + 1;
      }
      NumbersOfPfns(ptrs[..nrFrames], frames);
    }

    /** Fills the array with page pointers and takes their references, as get_user_pages_locked does. */
    method PinPages(gup: Gup) returns (ret: int)
      requires gup.Pinned? ==> |gup.pages| <= ptrs.Length
      modifies this`taken, ptrs
      ensures gup.GupError? ==> ret == gup.code && taken == old(taken)
      ensures gup.Pinned? ==>
                && ret == |gup.pages| && taken == old(taken) + multiset(gup.pages)
                && Uniform(ptrs[..ret], false) && Numbers(ptrs[..ret]) == gup.pages
    {
      if gup.GupError? {
        return gup.code;
      }
      for i := 0 to |gup.pages|
        invariant taken == old(taken)
        invariant forall j | 0 <= j < i :: ptrs[j] == Page(gup.pages[j])
      {
        ptrs[i] := Page(gup.pages[i]);
      }
      ret := |gup.pages|;
      NumbersOfPages(ptrs[..ret], gup.pages);
      taken := taken + multiset(gup.pages);
    }

    /** The nested loops over adjacent special areas, starting inside `first`. */
    method WalkAreas(mm: Mm, first: Vma, start: nat, cap: nat) returns (ret: int)
      requires ValidMm(mm) && FindVma(mm, start) == Some(first) && first.special
      requires 0 < cap <= ptrs.Length
      modifies ptrs
      ensures var n := PrefixLength(mm, start, cap);
              if n > 0 then ret == n && Walked(mm, start, cap, n, Address(mm, start, n), ptrs[..])
              else ret == if start + mm.page <= first.end then mm.followErr else 0
    {
      hide PrefixLength, Mappable, FindVma, Walked;
      var done: nat, a: nat, v := 0, start, first;
      WalkStart(mm, start, cap, ptrs[..]);
      FindVmaExact(mm, start);
      while true
        invariant 0 <= done < cap && Walked(mm, start, cap, done, a, ptrs[..])
        invariant FindVma(mm, a) == Some(v) && v in mm.vmas && v.special && Contains(v, a)
        invariant done == 0 ==> a == start && v == first
        decreases cap - done
      {
        ghost var done0 := done;
        while done < cap && a + mm.page <= v.end
          invariant done0 <= done <= cap && Walked(mm, start, cap, done, a, ptrs[..])
          invariant v.start <= a <= v.end && (done == done0 ==> Contains(v, a))
          invariant done == 0 ==> a == start && v == first
        {
          FindHere(mm, v, a);
          if a !in mm.frames {
            WalkEnd(mm, start, cap, done, a, ptrs[..]);
            WalkDone(mm, start, cap, done, a, ptrs[..]);
            return if done == 0 then mm.followErr else done;
          }
          WalkPage(mm, start, cap, done, a, ptrs[..], v);
          ghost var ws := ptrs[..];
          ptrs[done] := Pfn(mm.frames[a]);
          assert ptrs[..] == ws[done := Pfn(mm.frames[a])];
          a := a + mm.page;
          done := done + 1;
        }
        if done >= cap || a < v.end {
          if a < v.end {
            FindHere(mm, v, a);
          }
          WalkEnd(mm, start, cap, done, a, ptrs[..]);
          break;
        }
        var next := FindVma(mm, a);
        if next.None? || !next.vma.special {
          WalkEnd(mm, start, cap, done, a, ptrs[..]);
          break;
        }
        FindVmaExact(mm, a);
        v := next.vma;
      }
      WalkDone(mm, start, cap, done, a, ptrs[..]);
      return done;
    }

    /** The part done under mmap_sem: fills the array and the flags, and returns a count, an error or 0. */
    method MapPages(mm: Mm, start: nat, cap: nat, gup: Gup) returns (ret: int)
      requires ValidMm(mm) && 0 < cap <= ptrs.Length
      requires gup.Pinned? ==> |gup.pages| <= cap
      requires gup.GupError? ==> gup.code < 0
      modifies this`gotRef, this`isPfns, this`taken, ptrs
      ensures match Mapping(mm, start, cap, gup)
              case Failure(code) => ret <= 0 && code == (if ret == 0 then -EFAULT else ret) && taken == old(taken)
              case Pins(pages) =>
                && 0 < ret == |pages| <= cap && gotRef && !isPfns && gup == Pinned(pages)
                && Uniform(ptrs[..ret], false) && Numbers(ptrs[..ret]) == pages && taken == old(taken) + multiset(pages)
              case Borrows(pfns) =>
                && 0 < ret == |pfns| <= cap && !gotRef && isPfns
                && Uniform(ptrs[..ret], true) && Numbers(ptrs[..ret]) == pfns && taken == old(taken)
    {
      hide PrefixLength, Mappable, Walked, Numbers, Uniform, FramesFrom, FindVma;
      var f := FindVma(mm, start);
      if f.None? {
        return -EFAULT;
      }
      if f.vma.fsdax {
        return -EOPNOTSUPP;
      }
      if !f.vma.special {
        gotRef, isPfns := true, false;
        ret := PinPages(gup);
        return;
      }
      gotRef, isPfns := false, true;
      ret := WalkAreas(mm, f.vma, start, cap);
      WalkReported(mm, start, cap, ptrs[..]);
    }

    /**
     Records the pages behind a user address range: pinned pages of an ordinary area, or the
     bare frame numbers of adjacent special areas.
     */
    method GetVaddrFrames(mm: Mm, start: nat, nr: nat, gup: Gup) returns (ret: int)
      requires Valid() && nrFrames == 0 && ValidMm(mm)
      requires gup.Pinned? ==> |gup.pages| <= Cap(nr) && HavePages(gup.pages, validPfns)
      requires gup.GupError? ==> gup.code < 0
      modifies this`nrFrames, this`gotRef, this`isPfns, this`taken, ptrs
      ensures Valid() && nrFrames == (if ret > 0 then ret else 0) && (nr == 0 ==> ret == 0)
      ensures ret <= 0 ==> taken == old(taken)
      ensures nr > 0 && (forall v | v in mm.vmas :: !Contains(v, start)) ==> ret == -14
      ensures forall v | nr > 0 && v in mm.vmas && Contains(v, start) ::
                if v.fsdax then ret == -95
                else if !v.special then
                  if gup.GupError? then ret == gup.code
                  else if gup.pages == [] then ret == -14
                  else
                    && ret == |gup.pages| && gotRef && !isPfns && Frames() == gup.pages
                    && taken == old(taken) + multiset(gup.pages)
                else if !Mappable(mm, start) then ret == if start + mm.page <= v.end then mm.followErr else -14
                else
                  var cap := if nr > nrAllocated then nrAllocated else nr;
                  && 0 < ret <= cap && !gotRef && isPfns && taken == old(taken)
                  && (forall i: nat | i < ret ::
                        && start + i * mm.page in mm.frames && Mappable(mm, start + i * mm.page)
                        && Frames()[i] == mm.frames[start + i * mm.page])
                  && (ret < cap ==> !Mappable(mm, start + ret * mm.page))
    {
      hide Mapping, Numbers, Uniform, HavePages, Mappable, Address, FrameAt, Contains;
      NoWords(isPfns, validPfns);
      assert ptrs[..0] == [];
      if nr == 0 {
        return 0;
      }
      var cap := if nr > nrAllocated then nrAllocated else nr;
      ret := MapPages(mm, start, cap, gup);
      MappingExact(mm, start, cap, gup);
      NoWords(isPfns, validPfns);
      assert ptrs[..0] == [];
      if ret == 0 {
        ret := -EFAULT;
      }
      if ret > 0 {
        nrFrames := ret;
        assert Frames() == Numbers(ptrs[..ret]);
      }
    }

    function Cap(nr: nat): nat
      reads this
    {
      if nr > nrAllocated then nrAllocated else nr
    }

    /** Drops every reference the vector holds; the conversion back to pages cannot fail. */
    method PutVaddrFrames()
      requires Valid()
      modifies this`nrFrames, this`gotRef, this`isPfns, this`dropped, ptrs
      ensures Valid() && nrFrames == 0 && Held() == multiset{}
      ensures dropped == old(dropped) + (if old(gotRef) then multiset(old(Frames())) else multiset{}) && taken == dropped
    {
      hide Numbers, Uniform, HavePages;
      if gotRef {
        var err := ToPages();
        assert err == 0;
        PutPages();
        gotRef := false;
      }
      nrFrames := 0;
      NoWords(isPfns, validPfns);
      assert ptrs[..0] == [];
    }

    method PutPages()
      requires nrFrames <= ptrs.Length && Uniform(ptrs[..nrFrames], false)
      modifies this`dropped
      ensures dropped == old(dropped) + multiset(Numbers(ptrs[..nrFrames]))
    {
      ghost var frames := Numbers(ptrs[..nrFrames]);
      var i := 0;
      while i < nrFrames
        invariant 0 <= i <= nrFrames
        invariant dropped == old(dropped) + multiset(frames[..i])
      {
        assert frames[..i + 1] == frames[..i] + [frames[i]] && frames[i] == Number(ptrs[..nrFrames][i]);
        dropped := dropped + multiset{ptrs[i].n};
        i := i + 1;
      }
      assert frames[..i] == frames;
    }

    /** Freeing the vector is legal once it holds no frames, and then nothing is still referenced. */
    method Destroy()
      requires Valid() && nrFrames == 0
      ensures taken == dropped
    {
      assert Frames() == [];
    }

    /**
     frame_vector_create: the size is computed in a signed 32-bit int before the count is checked,
     and the checks leave only counts for which it did not wrap. `header` is sizeof(struct frame_vector).
     */
    static method Create(nr: nat, header: nat, memory: bool, validPfns: set<nat>) returns (vec: FrameVector?, size: int)
      requires nr < TWO_32 && header <= INT_MAX / 2
      ensures vec == null <==> nr == 0 || nr > 134217727 || !memory
      ensures vec != null ==> fresh(vec) && fresh(vec.ptrs) && vec.Valid() && vec.nrFrames == 0 && vec.nrAllocated == nr
      ensures vec != null ==> vec.validPfns == validPfns && vec.taken == vec.dropped == multiset{}
      ensures vec != null ==> size == header + 8 * nr
    {
      size := AsInt(header + WORD_SIZE * nr);
      if nr == 0 || nr > INT_MAX / WORD_SIZE / 2 || !memory {
        return null, size;
      }
      vec := new FrameVector(nr, validPfns);
    }
  }

  /** Conversion of a size_t to a 32-bit int. */
  function AsInt(n: nat): int {
    var w := n % TWO_32;
    if w > INT_MAX then w - TWO_32 else w
  }

  /** One call made by a user of the vector. */
  datatype Call = Get(mm: Mm, start: nat, nr: nat, gup: Gup) | Pages | Pfns | Put

  /** A get is legal on an emptied vector, and get_user_pages pins at most what was asked for. */
  predicate Legal(c: Call, nrFrames: nat, nrAllocated: nat, validPfns: set<nat>) {
    c.Get? ==>
      && nrFrames == 0 && ValidMm(c.mm)
      && (c.gup.Pinned? ==> |c.gup.pages| <= c.nr && |c.gup.pages| <= nrAllocated && HavePages(c.gup.pages, validPfns))
      && (c.gup.GupError? ==> c.gup.code < 0)
  }

  /**
   Any run of calls, the illegal ones left out, then a last put and the destroy: every page
   reference taken has been dropped exactly once, on the same page.
   */
  method Lifetime(nr: nat, validPfns: set<nat>, calls: seq<Call>)
    returns (frames: nat, ghost taken: multiset<nat>, ghost dropped: multiset<nat>)
    requires 0 < nr <= INT_MAX / WORD_SIZE / 2
    ensures frames == 0 && taken == dropped
  {
    hide Mapping, Numbers, Uniform, HavePages;
    var vec := new FrameVector(nr, validPfns);
    for i := 0 to |calls|
      invariant fresh(vec) && fresh(vec.ptrs) && vec.Valid()
    {
      Step(vec, calls[i]);
    }
    vec.PutVaddrFrames();
    vec.Destroy();
    return vec.nrFrames, vec.taken, vec.dropped;
  }

  method Step(vec: FrameVector, call: Call)
    requires vec.Valid()
    modifies vec, vec.ptrs
    ensures vec.Valid() && vec.ptrs == old(vec.ptrs)
  {
    hide Mapping, Numbers, Uniform, HavePages;
    if Legal(call, vec.nrFrames, vec.nrAllocated, vec.validPfns) {
      match call {
        case Get(mm, start, nr, gup) =>
          var n := vec.GetVaddrFrames(mm, start, nr, gup);
        case Pages =>
          var err := vec.ToPages();
        case Pfns =>
          vec.ToPfns();
        case Put =>
          vec.PutVaddrFrames();
      }
    }
  }
}
