/**
  Tearing an address space down: `destroy_level` walks the lower half of the tree and frees each table
  after the tables below it.
 */
module PageTableDestroy {
  import opened PageEntries
  import opened PageTables
  import opened Wrappers

  /** The tables freed for `t`, in order: those below its entries start..end, then `t` itself. */
  ghost function Tables(mem: Memory, t: Frame, start: nat, end: nat, level: nat): seq<Frame>
    decreases level, end - start, 1
  {
    if level == 0 then [] else Children(mem, t, start, end, level) + [t]
  }

  ghost function Children(mem: Memory, t: Frame, start: nat, end: nat, level: nat): seq<Frame>
    decreases level, end - start, 0
  {
    if level == 0 || start >= end || end > 512 || !IsTable(mem, t) then []
    else (if Present(mem[t][start]) then Tables(mem, Addr(mem[t][start]), 0, 512, level - 1) else [])
         + Children(mem, t, start + 1, end, level)
  }

  ghost predicate NoDup(s: seq<Frame>) {
    forall i, j :: 0 <= i < j < |s| ==> s[i] != s[j]
  }

  lemma NoDupConcat(a: seq<Frame>, b: seq<Frame>)
    requires NoDup(a) && NoDup(b) && forall f :: f in a ==> f !in b
    ensures NoDup(a + b)
  {
    forall i, j | 0 <= i < j < |a + b| ensures (a + b)[i] != (a + b)[j] {
      if i < |a| <= j {
        assert a[i] in a;
      }
    }
  }

  /** `f` is a table of the same address space as `t`, placed below entry number start..end of `t`. */
  ghost predicate Below(pos: map<Frame, Pos>, t: Frame, start: nat, end: nat, f: Frame)
    requires t in pos
  {
    var n := |pos[t].path|;
    && f in pos && pos[f].owner == pos[t].owner
    && |pos[f].path| > n && pos[f].path[..n] == pos[t].path && start <= pos[f].path[n] < end
  }

  lemma {:induction false} TablesBelow(mem: Memory, roots: set<Frame>, pos: map<Frame, Pos>, t: Frame, start: nat,
                                       end: nat, level: nat)
    requires Placed(mem, roots, pos) && t in pos && |pos[t].path| + level == 4
    requires start <= end <= 512 && (pos[t].path == [] ==> end <= KERNEL_HALF)
    ensures NoDup(Tables(mem, t, start, end, level))
    ensures forall f :: f in Tables(mem, t, start, end, level) ==> f == t || Below(pos, t, start, end, f)
    decreases level, end - start, 1
  {
    if level > 0 {
      ChildrenBelow(mem, roots, pos, t, start, end, level);
      NoDupConcat(Children(mem, t, start, end, level), [t]);
    }
  }

  lemma {:induction false} ChildrenBelow(mem: Memory, roots: set<Frame>, pos: map<Frame, Pos>, t: Frame, start: nat,
                                         end: nat, level: nat)
    requires Placed(mem, roots, pos) && t in pos && |pos[t].path| + level == 4 && level > 0
    requires start <= end <= 512 && (pos[t].path == [] ==> end <= KERNEL_HALF)
    ensures NoDup(Children(mem, t, start, end, level))
    ensures forall f :: f in Children(mem, t, start, end, level) ==> Below(pos, t, start, end, f)
    decreases level, end - start, 0
  {
    hide Addr, Present;
    if start < end {
      var rest := Children(mem, t, start + 1, end, level);
      ChildrenBelow(mem, roots, pos, t, start + 1, end, level);
      if Present(mem[t][start]) && level > 1 {
        var c := Addr(mem[t][start]);
        var sub := Tables(mem, c, 0, 512, level - 1);
        TablesBelow(mem, roots, pos, c, 0, 512, level - 1);
        var n := |pos[t].path|;
        forall f | f in sub ensures Below(pos, t, start, start + 1, f) {
          assert pos[c].path[..n] == pos[t].path && pos[c].path[n] == start;
          if f != c {
            assert pos[f].path[..n + 1] == pos[c].path;
            assert pos[f].path[..n] == pos[f].path[..n + 1][..n];
            assert pos[f].path[n] == pos[f].path[..n + 1][n];
          }
        }
        NoDupConcat(sub, rest);
      }
    }
  }

  lemma {:induction false} ChildListed(mem: Memory, t: Frame, start: nat, end: nat, level: nat, i: nat)
    requires level > 1 && start <= i < end <= 512 && IsTable(mem, t) && Present(mem[t][i])
    ensures Addr(mem[t][i]) in Children(mem, t, start, end, level)
    decreases end - start
  {
    hide Addr, Present;
    if i == start {
      var sub := Tables(mem, Addr(mem[t][i]), 0, 512, level - 1);
      assert sub[|sub| - 1] == Addr(mem[t][i]);
    } else {
      ChildListed(mem, t, start + 1, end, level, i);
    }
  }

  /** Whatever hangs from a listed table is listed. */
  lemma {:induction false} ListedStep(mem: Memory, roots: set<Frame>, pos: map<Frame, Pos>, t: Frame, start: nat,
                                      end: nat, level: nat, q: Frame, i: nat)
    requires Placed(mem, roots, pos) && t in pos && |pos[t].path| + level == 4 && level > 0
    requires start <= end <= 512 && (pos[t].path == [] ==> end <= KERNEL_HALF)
    requires q in Tables(mem, t, start, end, level) && q in pos && |pos[q].path| < 3 && i < 512 && Present(mem[q][i])
    requires q == t ==> start <= i < end
    ensures Addr(mem[q][i]) in Tables(mem, t, start, end, level)
    decreases level, end - start, 1
  {
    if q == t {
      ChildListed(mem, t, start, end, level, i);
    } else {
      ListedBelow(mem, roots, pos, t, start, end, level, q, i);
    }
  }

  lemma {:induction false} ListedBelow(mem: Memory, roots: set<Frame>, pos: map<Frame, Pos>, t: Frame, start: nat,
                                       end: nat, level: nat, q: Frame, i: nat)
    requires Placed(mem, roots, pos) && t in pos && |pos[t].path| + level == 4 && level > 0
    requires start <= end <= 512 && (pos[t].path == [] ==> end <= KERNEL_HALF)
    requires q in Children(mem, t, start, end, level) && q in pos && |pos[q].path| < 3 && i < 512 && Present(mem[q][i])
    ensures Addr(mem[q][i]) in Children(mem, t, start, end, level)
    decreases level, end - start, 0
  {
    hide Addr, Present;
    if q in Children(mem, t, start + 1, end, level) {
      ListedBelow(mem, roots, pos, t, start + 1, end, level, q, i);
    } else {
      var c := Addr(mem[t][start]);
      assert level > 1;
      ListedStep(mem, roots, pos, c, 0, 512, level - 1, q, i);
    }
  }

  /** Every table of the address space is freed. */
  lemma {:induction false} OwnedListed(mem: Memory, roots: set<Frame>, pos: map<Frame, Pos>, free: set<Frame>,
                                       root: Frame, f: Frame)
    requires Inv(mem, roots, pos, free) && root in roots && f in pos && pos[f].owner == Some(root)
    ensures f in Tables(mem, root, 0, KERNEL_HALF, 4)
    decreases |pos[f].path|
  {
    hide Addr, Present, Tables, Children;
    RootListed(mem, root, KERNEL_HALF);
    if pos[f].path != [] {
      assert Hangs(mem, pos, f);
      var q, i := pos[f].parent, pos[f].path[|pos[f].path| - 1];
      OwnedListed(mem, roots, pos, free, root, q);
      assert Present(mem[q][i]);
      ListedStep(mem, roots, pos, root, 0, KERNEL_HALF, 4, q, i);
    }
  }

  lemma RootListed(mem: Memory, root: Frame, end: nat)
    ensures root in Tables(mem, root, 0, end, 4)
  {
    var s := Tables(mem, root, 0, end, 4);
    assert s[|s| - 1] == root;
  }

  ghost function Members(s: seq<Frame>): set<Frame> {
    set f | f in s
  }

  /** Taking the freed tables away leaves the other address spaces as they were. */
  lemma DestroyedInv(mem: Memory, roots: set<Frame>, pos: map<Frame, Pos>, free: set<Frame>, root: Frame,
                     dead: set<Frame>)
    requires Inv(mem, roots, pos, free) && root in roots
    requires forall f :: f in dead <==> f in pos && pos[f].owner == Some(root)
    ensures Inv(mem, roots - {root}, pos - dead, free + dead)
  {
    hide Addr, Present;
    var pos' := pos - dead;
    forall u | u in pos' && pos'[u].owner.Some? && pos'[u].path != [] ensures Hangs(mem, pos', u) {
      assert Hangs(mem, pos, u);
    }
    assert Placed(mem, roots - {root}, pos');
  }

  /** Returns a frame to the pool; the frame must not be there already. */
  method PmmFree(mm: AddressSpaces, f: Frame)
    requires f !in mm.free
    modifies mm`free
    ensures mm.free == old(mm.free) + {f}
  {
    mm.free := mm.free + {f};
  }

  /** Each call of `PmmFree` finds its table still allocated, so no table is freed twice. */
  method DestroyLevel(mm: AddressSpaces, t: Frame, start: nat, end: nat, level: nat)
    requires level > 0 ==> Placed(mm.mem, mm.roots, mm.pos) && t in mm.pos
    requires level > 0 ==>
              |mm.pos[t].path| + level == 4 && start <= end <= 512 && (mm.pos[t].path == [] ==> end <= KERNEL_HALF)
    requires forall f :: f in Tables(mm.mem, t, start, end, level) ==> f !in mm.free
    modifies mm`free
    ensures mm.free == old(mm.free) + Members(Tables(mm.mem, t, start, end, level))
    decreases level
  {
    hide Addr, Present, Placed, Tables, Children;
    if level == 0 {
      NoTables(mm.mem, t, start, end);
      return;
    }
    TablesBelow(mm.mem, mm.roots, mm.pos, t, start, end, level);
    TablesUnfold(mm.mem, mm.roots, mm.pos, t, start, end, level, end);
    ghost var todo := Tables(mm.mem, t, start, end, level);
    ghost var done: seq<Frame> := [];
    var i := start;
    while i < end
      invariant start <= i <= end && todo == done + Children(mm.mem, t, i, end, level) + [t]
      invariant mm.free == old(mm.free) + Members(done)
    {
      TablesUnfold(mm.mem, mm.roots, mm.pos, t, start, end, level, i);
      var next := mm.PeekNextLevel(t, i);
      ghost var rest := Children(mm.mem, t, i + 1, end, level);
      if next.Some? {
        ghost var sub := Tables(mm.mem, next.value, 0, 512, level - 1);
        assert done + (sub + rest) + [t] == done + sub + (rest + [t]) == done + sub + rest + [t];
        FreeRest(todo, done, sub, rest + [t], old(mm.free));
        DestroyLevel(mm, next.value, 0, 512, level - 1);
        MembersConcat(done, sub);
        done := done + sub;
      }
      i := i + 1;
    }
    TablesUnfold(mm.mem, mm.roots, mm.pos, t, start, end, level, end);
    FreeRest(todo, done, [t], [], old(mm.free));
    assert [t][0] in [t];
    PmmFree(mm, t);
    MembersConcat(done, [t]);
  }

  lemma MembersConcat(a: seq<Frame>, b: seq<Frame>)
    ensures Members(a + b) == Members(a) + Members(b)
    ensures |b| == 1 ==> Members(b) == {b[0]}
    ensures Members([]) == {}
  {
  }

  lemma NoTables(mem: Memory, t: Frame, start: nat, end: nat)
    ensures Tables(mem, t, start, end, 0) == [] && Members([]) == {}
  {
  }

  /** One turn of the loop over the entries of `t`. */
  lemma TablesUnfold(mem: Memory, roots: set<Frame>, pos: map<Frame, Pos>, t: Frame, start: nat, end: nat, level: nat,
                     i: nat)
    requires Placed(mem, roots, pos) && t in pos && |pos[t].path| + level == 4 && level > 0
    requires start <= i <= end <= 512
    ensures IsTable(mem, t) && Tables(mem, t, start, end, level) == Children(mem, t, start, end, level) + [t]
    ensures i == end ==> Children(mem, t, i, end, level) == []
    ensures i < end && !Present(mem[t][i]) ==> Children(mem, t, i, end, level) == Children(mem, t, i + 1, end, level)
    ensures i < end && Present(mem[t][i]) ==>
              Children(mem, t, i, end, level)
                    == Tables(mem, Addr(mem[t][i]), 0, 512, level - 1) + Children(mem, t, i + 1, end, level)
    ensures i < end && Present(mem[t][i]) && level > 1 ==>
              var c := Addr(mem[t][i]); c in pos && |pos[c].path| + level - 1 == 4 && pos[c].path != []
  {
    hide Addr, Present;
  }

  lemma FreeRest(todo: seq<Frame>, done: seq<Frame>, sub: seq<Frame>, rest: seq<Frame>, free: set<Frame>)
    requires NoDup(todo) && todo == done + sub + rest && forall f :: f in todo ==> f !in free
    ensures forall f :: f in sub ==> f !in free + Members(done)
  {
    forall f | f in sub ensures f in todo && f !in done {
      var j :| 0 <= j < |sub| && sub[j] == f;
      assert todo[|done| + j] == f;
      forall i | 0 <= i < |done| ensures done[i] != f {
        assert todo[i] == done[i];
      }
    }
  }

  /**
    Frees the tables of an address space: exactly its own ones, each once. The shared kernel tables,
    the tables of other address spaces and all data frames stay allocated, and nothing else changes.
   */
  method DestroyPagemap(mm: AddressSpaces, root: Frame)
    requires mm.Valid() && root in mm.roots
    modifies mm
    ensures mm.Valid() && mm.roots == old(mm.roots) - {root} && mm.mem == old(mm.mem)
    ensures mm.free == old(mm.free) + set f | f in old(mm.pos) && old(mm.pos)[f].owner == Some(root)
    ensures forall f :: f in mm.pos <==> f in old(mm.pos) && old(mm.pos)[f].owner != Some(root)
  {
    hide Addr, Present, Tables, Children;
    ghost var listed := Tables(mm.mem, root, 0, KERNEL_HALF, 4);
    ghost var dead := set f | f in mm.pos && mm.pos[f].owner == Some(root);
    TablesBelow(mm.mem, mm.roots, mm.pos, root, 0, KERNEL_HALF, 4);
    forall f | f in dead ensures f in listed {
      OwnedListed(mm.mem, mm.roots, mm.pos, mm.free, root, f);
    }
    forall f | f in listed ensures f in dead {
      assert f == root || Below(mm.pos, root, 0, KERNEL_HALF, f);
    }
    assert Members(listed) == dead;
    DestroyLevel(mm, root, 0, KERNEL_HALF, 4);
    DestroyedInv(mm.mem, mm.roots, mm.pos, old(mm.free), root, dead);
    mm.roots := mm.roots - {root};
    mm.pos := mm.pos - dead;
  }
}
