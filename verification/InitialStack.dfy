/** The stack of a new process: argument and environment strings, their pointers and the auxiliary vector
    (`kernel/sched/sched.c`, the System V AMD64 ABI, section 3.4.1). */
module InitialStack {

  import opened ByteMemory
  import opened Wrappers

  const STACK_SIZE: nat := 0x40000

  /** Types of auxiliary entries, from the ABI. */
  const AT_PHDR: nat := 3
  const AT_PHENT: nat := 4
  const AT_PHNUM: nat := 5
  const AT_ENTRY: nat := 9
  const AT_SECURE: nat := 23

  datatype Auxval = Auxval(entry: nat, phdr: nat, phent: nat, phnum: nat) {
    ghost predicate Valid() {
      entry < WORD_LIMIT && phdr < WORD_LIMIT && phent < WORD_LIMIT && phnum < WORD_LIMIT
    }
  }

  type Text = seq<Byte>

  /** A C string: the bytes, none of them zero, and a zero. */
  ghost predicate CString(m: Memory, a: int, s: Text) {
    0 <= a && a + |s| < |m| && m[a..a + |s|] == s && m[a + |s|] == 0
  }

  function Sum(list: seq<Text>): nat {
    if list == [] then 0 else |list[0]| + 1 + Sum(list[1..])
  }

  /** The strings lie below `at`, the first one highest. */
  ghost predicate Strings(m: Memory, at: int, list: seq<Text>)
    decreases |list|
  {
    list != [] ==> CString(m, at - |list[0]| - 1, list[0]) && Strings(m, at - |list[0]| - 1, list[1..])
  }

  /** Addresses of strings laid out downwards from `top`. */
  ghost function Pointers(top: int, list: seq<Text>): seq<int>
    decreases |list|
  {
    if list == [] then [] else [top - |list[0]| - 1] + Pointers(top - |list[0]| - 1, list[1..])
  }

  ghost predicate Words(m: Memory, a: nat, words: seq<int>)
    decreases |words|
  {
    words != [] ==> a + 8 <= |m| && Load(m, a) == words[0] && Words(m, a + 8, words[1..])
  }

  lemma {:induction false} SumAppend(list: seq<Text>, s: Text)
    ensures Sum(list + [s]) == Sum(list) + |s| + 1
  {
    if list == [] {
      assert list + [s] == [s];
    } else {
      assert (list + [s])[1..] == list[1..] + [s];
      SumAppend(list[1..], s);
    }
  }

  lemma {:induction false} SumPrefix(list: seq<Text>, i: nat)
    requires i <= |list|
    ensures Sum(list[..i]) <= Sum(list)
  {
    if i > 0 {
      assert list[..i][1..] == list[1..][..i - 1];
      SumPrefix(list[1..], i - 1);
    }
  }

  lemma {:induction false} StringsAppend(m: Memory, at: int, list: seq<Text>, s: Text)
    requires Strings(m, at, list) && CString(m, at - Sum(list) - |s| - 1, s)
    ensures Strings(m, at, list + [s])
    decreases |list|
  {
    if list == [] {
      assert list + [s] == [s];
    } else {
      assert (list + [s])[1..] == list[1..] + [s];
      StringsAppend(m, at - |list[0]| - 1, list[1..], s);
    }
  }

  /** What lies at or above `a` is the same in both memories. */
  ghost predicate Same(m: Memory, n: Memory, a: int) {
    |m| == |n| && forall i :: a <= i < |m| && 0 <= i ==> n[i] == m[i]
  }

  ghost predicate ZeroBelow(m: Memory, a: nat) {
    a <= |m| && forall i :: 0 <= i < a ==> m[i] == 0
  }

  lemma SameTrans(m: Memory, n: Memory, k: Memory, a: int, b: int)
    requires Same(m, n, a) && Same(n, k, b) && b <= a
    ensures Same(m, k, a)
  {
  }

  lemma CStringKeep(m: Memory, n: Memory, a: int, s: Text, low: int)
    requires CString(m, a, s) && Same(m, n, low) && low <= a
    ensures CString(n, a, s)
  {
  }

  lemma {:induction false} StringsKeep(m: Memory, n: Memory, at: int, list: seq<Text>, low: int)
    requires Strings(m, at, list) && Same(m, n, low) && low <= at - Sum(list)
    ensures Strings(n, at, list)
    decreases |list|
  {
    hide CString, Same;
    if list != [] {
      CStringKeep(m, n, at - |list[0]| - 1, list[0], low);
      StringsKeep(m, n, at - |list[0]| - 1, list[1..], low);
    }
  }

  lemma {:induction false} WordsKeep(m: Memory, n: Memory, a: nat, words: seq<int>)
    requires Words(m, a, words) && |n| == |m| && forall i :: a <= i < a + 8 * |words| && i < |m| ==> n[i] == m[i]
    ensures Words(n, a, words)
    decreases |words|
  {
    hide Load;
    if words != [] {
      LoadSame(m, n, a);
      WordsKeep(m, n, a + 8, words[1..]);
    }
  }

  lemma {:induction false} WordsAppend(m: Memory, a: nat, xs: seq<int>, ys: seq<int>)
    requires Words(m, a, xs) && Words(m, a + 8 * |xs|, ys)
    ensures Words(m, a, xs + ys)
    decreases |xs|
  {
    hide Load;
    if xs == [] {
      assert xs + ys == ys;
    } else {
      assert (xs + ys)[1..] == xs[1..] + ys;
      WordsAppend(m, a + 8, xs[1..], ys);
    }
  }

  /** The words read back one by one. */
  lemma {:induction false} WordAt(m: Memory, a: nat, words: seq<int>, k: nat)
    requires Words(m, a, words) && k < |words|
    ensures a + 8 * k + 8 <= |m| && Load(m, a + 8 * k) == words[k]
    decreases |words|
  {
    hide Load;
    if k > 0 {
      WordAt(m, a + 8, words[1..], k - 1);
    }
  }

  lemma {:induction false} PointersLength(top: int, list: seq<Text>)
    ensures |Pointers(top, list)| == |list|
    decreases |list|
  {
    if list != [] { PointersLength(top - |list[0]| - 1, list[1..]); }
  }

  lemma {:induction false} PointersAppend(top: int, list: seq<Text>, s: Text)
    ensures Pointers(top, list + [s]) == Pointers(top, list) + [top - Sum(list) - |s| - 1]
    decreases |list|
  {
    if list == [] {
      assert list + [s] == [s];
    } else {
      assert (list + [s])[1..] == list[1..] + [s];
      PointersAppend(top - |list[0]| - 1, list[1..], s);
    }
  }

  /** Each pointer addresses its own string: user addresses are stack positions plus `shift`. */
  lemma {:induction false} PointerAddresses(m: Memory, at: int, shift: int, list: seq<Text>, i: nat)
    requires Strings(m, at, list) && i < |list|
    ensures |Pointers(at + shift, list)| == |list| && CString(m, Pointers(at + shift, list)[i] - shift, list[i])
    decreases |list|
  {
    PointersLength(at + shift, list);
    if i > 0 {
      PointerAddresses(m, at - |list[0]| - 1, shift, list[1..], i - 1);
    }
  }

  /** Room for the strings, for aligning twice, and for the words. */
  ghost predicate Fits(argv: seq<Text>, envp: seq<Text>) {
    Sum(envp) + Sum(argv) + 24 + 8 * (15 + |argv| + |envp|) <= STACK_SIZE
  }

  /** The auxiliary vector, ended by a null pair. */
  function AuxWords(aux: Auxval): seq<int> {
    [AT_PHNUM, aux.phnum, AT_PHENT, aux.phent, AT_PHDR, aux.phdr, AT_ENTRY, aux.entry, AT_SECURE, 0, 0, 0]
  }

  /** What the ABI asks for, upwards from the stack pointer. */
  ghost function Expected(argv: seq<Text>, envp: seq<Text>, aux: Auxval, top: int): seq<int> {
    [|argv|] + Pointers(top - Sum(envp), argv) + [0] + Pointers(top, envp) + [0] + AuxWords(aux)
  }

  lemma ExpectedBuilt(argv: seq<Text>, envp: seq<Text>, aux: Auxval, top: int)
    ensures [|argv|] + (Pointers(top - Sum(envp), argv) + ([0] + (Pointers(top, envp) + ([0] + AuxWords(aux)))))
         == Expected(argv, envp, aux, top)
  {
    hide Pointers, Sum, AuxWords;
  }

  lemma UserAligned(top: nat, a: nat)
    requires top % 16 == 0 && a % 16 == 0
    ensures (top - STACK_SIZE + a) % 16 == 0
  {
  }

  lemma ExpectedAt(argv: seq<Text>, envp: seq<Text>, aux: Auxval, top: int, i: nat)
    ensures var e := Expected(argv, envp, aux, top); var n := |argv| + |envp|;
      && |e| == 15 + n && e[0] == |argv| && e[1 + |argv|] == 0 && e[2 + n] == 0
      && (i < |argv| ==> i < |Pointers(top - Sum(envp), argv)| && e[1 + i] == Pointers(top - Sum(envp), argv)[i])
      && (i < |envp| ==> i < |Pointers(top, envp)| && e[2 + |argv| + i] == Pointers(top, envp)[i])
  {
    PointersLength(top - Sum(envp), argv);
    PointersLength(top, envp);
    hide Pointers, Sum;
  }

  /** What a process finds for a type in the auxiliary vector at `a`: pairs of type and value up to a null type. */
  ghost function AuxValue(m: Memory, a: nat, kind: int): Option<int>
    decreases |m| - a
  {
    if a + 16 > |m| || Load(m, a) == 0 then None
    else if Load(m, a) == kind then Some(Load(m, a + 8))
    else AuxValue(m, a + 16, kind)
  }

  /** What the kernel tells the process. */
  function Told(aux: Auxval, kind: int): Option<int> {
    if kind == AT_PHDR then Some(aux.phdr) else if kind == AT_PHENT then Some(aux.phent)
    else if kind == AT_PHNUM then Some(aux.phnum) else if kind == AT_ENTRY then Some(aux.entry)
    else if kind == AT_SECURE then Some(0) else None
  }

  lemma AuxPair(m: Memory, a: nat, kind: int, other: int, value: int)
    requires a + 16 <= |m| && Load(m, a) == other != 0 && Load(m, a + 8) == value
    ensures AuxValue(m, a, kind) == if kind == other then Some(value) else AuxValue(m, a + 16, kind)
  {
    hide Load;
  }

  lemma AuxRead(m: Memory, a: nat, aux: Auxval, kind: int)
    requires Words(m, a, AuxWords(aux))
    ensures AuxValue(m, a, kind) == Told(aux, kind)
  {
    AuxLoads(m, a, aux);
    hide Load, Words, AuxValue;
    AuxPair(m, a, kind, AT_PHNUM, aux.phnum);
    AuxPair(m, a + 16, kind, AT_PHENT, aux.phent);
    AuxPair(m, a + 32, kind, AT_PHDR, aux.phdr);
    AuxPair(m, a + 48, kind, AT_ENTRY, aux.entry);
    AuxPair(m, a + 64, kind, AT_SECURE, 0);
    AuxEnds(m, a + 80, kind);
  }

  lemma AuxEnds(m: Memory, a: nat, kind: int)
    requires a + 16 <= |m| && Load(m, a) == 0
    ensures AuxValue(m, a, kind) == None
  {
    hide Load;
  }

  lemma AuxLoads(m: Memory, a: nat, aux: Auxval)
    requires Words(m, a, AuxWords(aux))
    ensures a + 96 <= |m|
    ensures Load(m, a) == AT_PHNUM && Load(m, a + 8) == aux.phnum && Load(m, a + 16) == AT_PHENT
    ensures Load(m, a + 24) == aux.phent && Load(m, a + 32) == AT_PHDR && Load(m, a + 40) == aux.phdr
    ensures Load(m, a + 48) == AT_ENTRY && Load(m, a + 56) == aux.entry && Load(m, a + 64) == AT_SECURE
    ensures Load(m, a + 72) == 0 && Load(m, a + 80) == 0
  {
    hide Load, Words;
    var words := AuxWords(aux);
    WordAt(m, a, words, 0); WordAt(m, a, words, 1); WordAt(m, a, words, 2); WordAt(m, a, words, 3);
    WordAt(m, a, words, 4); WordAt(m, a, words, 5); WordAt(m, a, words, 6); WordAt(m, a, words, 7);
    WordAt(m, a, words, 8); WordAt(m, a, words, 9); WordAt(m, a, words, 10); WordAt(m, a, words, 11);
  }

  lemma {:induction false} WordsFrom(m: Memory, a: nat, xs: seq<int>, ys: seq<int>)
    requires Words(m, a, xs + ys)
    ensures Words(m, a + 8 * |xs|, ys)
    decreases |xs|
  {
    hide Load;
    if xs == [] {
      assert xs + ys == ys;
    } else {
      assert (xs + ys)[1..] == xs[1..] + ys;
      WordsFrom(m, a + 8, xs[1..], ys);
    }
  }

  lemma ExpectedAux(m: Memory, a: nat, argv: seq<Text>, envp: seq<Text>, aux: Auxval, top: int)
    requires Words(m, a, Expected(argv, envp, aux, top))
    ensures Words(m, a + 8 * (3 + |argv| + |envp|), AuxWords(aux))
  {
    hide Words, Pointers, Sum;
    PointersLength(top - Sum(envp), argv);
    PointersLength(top, envp);
    var front := [|argv|] + Pointers(top - Sum(envp), argv) + [0] + Pointers(top, envp) + [0];
    WordsFrom(m, a, front, AuxWords(aux));
  }

  /**
    What the new process reads from its stack pointer upwards: the count, a pointer to each argument, a null
    pointer, a pointer to each environment string, a null pointer, and the auxiliary vector, in which it finds the
    value of each type it is told, and none for any other.
   */
  lemma ProcessReads(m: Memory, a: nat, argv: seq<Text>, envp: seq<Text>, aux: Auxval, top: int, i: nat, kind: int)
    requires |m| == STACK_SIZE && Words(m, a, Expected(argv, envp, aux, top))
    requires Strings(m, STACK_SIZE, envp) && Strings(m, STACK_SIZE - Sum(envp), argv)
    ensures a + 8 * (15 + |argv| + |envp|) <= |m| && Load(m, a) == |argv|
    ensures Load(m, a + 8 * (1 + |argv|)) == 0 && Load(m, a + 8 * (2 + |argv| + |envp|)) == 0
    ensures i < |argv| ==> CString(m, Load(m, a + 8 * (1 + i)) - (top - STACK_SIZE), argv[i])
    ensures i < |envp| ==> CString(m, Load(m, a + 8 * (2 + |argv| + i)) - (top - STACK_SIZE), envp[i])
    ensures AuxValue(m, a + 8 * (3 + |argv| + |envp|), kind) == Told(aux, kind)
  {
    var e := Expected(argv, envp, aux, top);
    var n := |argv| + |envp|;
    ExpectedAt(argv, envp, aux, top, i);
    hide Words, Strings, Pointers, Load, CString, Expected, AuxWords, Sum, AuxValue;
    WordAt(m, a, e, 14 + n);
    WordAt(m, a, e, 0);
    WordAt(m, a, e, 1 + |argv|);
    WordAt(m, a, e, 2 + n);
    if i < |argv| {
      WordAt(m, a, e, 1 + i);
      PointerAddresses(m, STACK_SIZE - Sum(envp), top - STACK_SIZE, argv, i);
    }
    if i < |envp| {
      WordAt(m, a, e, 2 + |argv| + i);
      PointerAddresses(m, STACK_SIZE, top - STACK_SIZE, envp, i);
    }
    ExpectedAux(m, a, argv, envp, aux, top);
    AuxRead(m, a + 8 * (3 + n), aux, kind);
  }

  class NewStack {
    var mem: Memory
    var stack: nat

    /** The words pushed so far, and the memory as it was when the strings, from `low` up, were complete. */
    ghost var pushed: seq<int>
    ghost var texts: Memory
    ghost var low: nat

    ghost predicate Valid()
      reads this
    {
      && |mem| == STACK_SIZE && stack + 8 * |pushed| <= low <= STACK_SIZE
      && Same(texts, mem, low) && Words(mem, stack, pushed)
    }

    constructor ()
      ensures |mem| == STACK_SIZE == stack && ZeroBelow(mem, stack)
    {
      mem := seq(STACK_SIZE, _ => 0);
      stack := STACK_SIZE;
    }

    /** A loop copying strings below the stack pointer; their final zeros are the stack's own. */
    method PushStrings(list: seq<Text>)
      requires Sum(list) <= stack && ZeroBelow(mem, stack)
      modifies this`mem, this`stack
      ensures stack == old(stack) - Sum(list) && |mem| == old(|mem|) && Same(old(mem), mem, old(stack))
      ensures Strings(mem, old(stack), list) && ZeroBelow(mem, stack)
    {
      ghost var was := mem;
      ghost var top := stack;
      hide CString;
      var i := 0;
      while i < |list|
        invariant 0 <= i <= |list| && Sum(list[..i]) <= Sum(list) && stack == top - Sum(list[..i])
        invariant Same(was, mem, top) && ZeroBelow(mem, stack) && Strings(mem, top, list[..i])
      {
        hide Sum, Strings, CString, Same;
        assert list[..i + 1] == list[..i] + [list[i]];
        SumNext(list, i);
        ghost var mid, below := mem, stack;
        stack := stack - |list[i]| - 1;
        CopyText(mid, stack, list[i]);
        mem := mem[..stack] + list[i] + mem[stack + |list[i]|..];
        SameTrans(was, mid, mem, top, below);
        StringsKeep(mid, mem, top, list[..i], below);
        StringsAppend(mem, top, list[..i], list[i]);
        i := i + 1;
      }
      assert list[..i] == list;
    }

    /** One word is pushed. */
    method Push(v: nat)
      requires Valid() && 8 <= stack && v < WORD_LIMIT
      modifies this`mem, this`stack, this`pushed
      ensures Valid() && stack == old(stack) - 8 && pushed == [v] + old(pushed)
    {
      hide Words, Load, Same;
      ghost var was := mem;
      stack := stack - 8;
      mem := Store(mem, stack, v);
      StoreSame(was, stack, v, low);
      SameTrans(texts, was, mem, low, low);
      LoadStore(was, stack, v);
      WordsKeep(was, mem, stack + 8, pushed);
      WordsPush(mem, stack, v, pushed);
      pushed := [v] + pushed;
    }

    /** Room for two words, which are then stored upwards. */
    method PushPair(a: nat, b: nat)
      requires Valid() && 16 <= stack && a < WORD_LIMIT && b < WORD_LIMIT
      modifies this`mem, this`stack, this`pushed
      ensures Valid() && stack == old(stack) - 16 && pushed == [a, b] + old(pushed)
    {
      hide Words, Load, Same;
      ghost var was := mem;
      stack := stack - 16;
      mem := Store(mem, stack, a);
      ghost var mid := mem;
      mem := Store(mem, stack + 8, b);
      StoreSame(was, stack, a, low);
      StoreSame(mid, stack + 8, b, low);
      SameTrans(texts, was, mid, low, low);
      SameTrans(texts, mid, mem, low, low);
      LoadStore(was, stack, a);
      LoadStore(mid, stack + 8, b);
      LoadSame(mid, mem, stack);
      WordsKeep(was, mem, stack + 16, pushed);
      WordsPush(mem, stack + 8, b, pushed);
      WordsPush(mem, stack, a, [b] + pushed);
      assert [a] + ([b] + pushed) == [a, b] + pushed;
      pushed := [a, b] + pushed;
    }

    /** A loop storing the addresses of strings, upwards from the lowered stack pointer. */
    method PushPointers(list: seq<Text>, rsp: nat) returns (next: nat)
      requires Valid() && 8 * |list| <= stack && Sum(list) <= rsp < WORD_LIMIT
      modifies this`mem, this`stack, this`pushed
      ensures Valid() && stack == old(stack) - 8 * |list| && next == rsp - Sum(list)
      ensures pushed == Pointers(rsp, list) + old(pushed)
    {
      hide Words, Pointers, Load, Same;
      ghost var was, top := mem, stack;
      stack := stack - 8 * |list|;
      next := StorePointers(list, rsp);
      PointersLength(rsp, list);
      SameAt(was, mem, top);
      WordsKeep(was, mem, top, pushed);
      SameTrans(texts, was, mem, low, top);
      WordsAppend(mem, stack, Pointers(rsp, list), pushed);
      pushed := Pointers(rsp, list) + pushed;
    }

    method StorePointers(list: seq<Text>, rsp: nat) returns (next: nat)
      requires stack + 8 * |list| <= |mem| && Sum(list) <= rsp < WORD_LIMIT
      modifies this`mem
      ensures |mem| == old(|mem|) && Same(old(mem), mem, stack + 8 * |list|)
      ensures next == rsp - Sum(list) && Words(mem, stack, Pointers(rsp, list))
    {
      hide Sum, Words, Pointers, Load, Same;
      ghost var was := mem;
      next := rsp;
      var i := 0;
      SameSelf(mem, stack + 8 * |list|);
      PointersNone(mem, stack, rsp, list);
      while i < |list|
        invariant 0 <= i <= |list| && Sum(list[..i]) <= Sum(list) && next == rsp - Sum(list[..i])
        invariant Same(was, mem, stack + 8 * |list|) && |mem| == |was|
        invariant Words(mem, stack, Pointers(rsp, list[..i]))
      {
        SumNext(list, i);
        next := next - |list[i]| - 1;
        ghost var mid := mem;
        PointerStep(mem, stack, rsp, list, i, next);
        StoreSame(mid, stack + 8 * i, next, stack + 8 * |list|);
        mem := Store(mem, stack + 8 * i, next);
        SameTrans(was, mid, mem, stack + 8 * |list|, stack + 8 * |list|);
        i := i + 1;
      }
      assert list[..i] == list;
    }

    /** The auxiliary vector, from its end down. */
    method PushAux(aux: Auxval)
      requires Valid() && pushed == [] && 96 <= stack && aux.Valid()
      modifies this`mem, this`stack, this`pushed
      ensures Valid() && stack == old(stack) - 96 && pushed == AuxWords(aux)
    {
      hide Words, Same;
      PushPair(0, 0);
      PushPair(AT_SECURE, 0);
      PushPair(AT_ENTRY, aux.entry);
      PushPair(AT_PHDR, aux.phdr);
      PushPair(AT_PHENT, aux.phent);
      PushPair(AT_PHNUM, aux.phnum);
      assert pushed == AuxWords(aux);
    }

    /** Everything below the strings; `top` is the user address of the stack's end, and the result the user's stack
        pointer. */
    method PushWords(argv: seq<Text>, envp: seq<Text>, aux: Auxval, top: nat) returns (rsp: nat)
      requires Valid() && pushed == [] && stack == STACK_SIZE - Sum(envp) - Sum(argv)
      requires STACK_SIZE <= top < WORD_LIMIT && top % 16 == 0 && Fits(argv, envp) && aux.Valid()
      modifies this`mem, this`stack, this`pushed
      ensures Valid() && rsp == top - STACK_SIZE + stack && rsp % 16 == 0
      ensures pushed == Expected(argv, envp, aux, top)
    {
      hide Words, Sum, Same, Pointers, AuxWords, Expected;
      Align(|argv| + |envp|);
      PushAux(aux);
      Push(0);
      var next := PushPointers(envp, top);
      Push(0);
      next := PushPointers(argv, next);
      Push(|argv|);
      ExpectedBuilt(argv, envp, aux, top);
      UserAligned(top, stack);
      rsp := top - (STACK_SIZE - stack);
    }

    /** The stack pointer is brought to where the words will end on a multiple of 16. */
    method Align(count: nat)
      requires Valid() && pushed == [] && 24 + 8 * (15 + count) <= stack
      modifies this`stack
      ensures Valid() && 8 * (15 + count) <= stack <= old(stack) < stack + 24 && (stack - 8 * (15 + count)) % 16 == 0
    {
      stack := stack / 16 * 16;
      if (count + 1) % 2 != 0 {
        stack := stack - 8;
      }
    }

    /** The stack of a process' first thread. */
    method Layout(argv: seq<Text>, envp: seq<Text>, aux: Auxval, top: nat) returns (rsp: nat)
      requires |mem| == STACK_SIZE == stack && ZeroBelow(mem, stack)
      requires STACK_SIZE <= top < WORD_LIMIT && top % 16 == 0 && Fits(argv, envp) && aux.Valid()
      modifies this
      ensures |mem| == STACK_SIZE && rsp == top - STACK_SIZE + stack && rsp % 16 == 0
      ensures Words(mem, stack, Expected(argv, envp, aux, top))
      ensures Strings(mem, STACK_SIZE, envp) && Strings(mem, STACK_SIZE - Sum(envp), argv)
    {
      hide Words, Strings, Sum, Pointers, Same, ZeroBelow;
      PushStrings(envp);
      ghost var afterEnvp := mem;
      PushStrings(argv);
      StringsKeep(afterEnvp, mem, STACK_SIZE, envp, STACK_SIZE - Sum(envp));
      texts, low, pushed := mem, stack, [];
      SameSelf(mem, low);
      WordsNone(mem, stack);
      rsp := PushWords(argv, envp, aux, top);
      StringsKeep(texts, mem, STACK_SIZE, envp, low);
      StringsKeep(texts, mem, STACK_SIZE - Sum(envp), argv, low);
    }
  }

  lemma SameAt(m: Memory, n: Memory, a: int)
    requires Same(m, n, a)
    ensures |m| == |n| && forall i :: a <= i < |m| && 0 <= i ==> n[i] == m[i]
  {
  }

  lemma SumNext(list: seq<Text>, i: nat)
    requires i < |list|
    ensures Sum(list[..i + 1]) == Sum(list[..i]) + |list[i]| + 1 <= Sum(list)
  {
    hide Sum;
    assert list[..i + 1] == list[..i] + [list[i]];
    SumAppend(list[..i], list[i]);
    SumPrefix(list, i + 1);
  }

  /** The next pointer goes behind the ones already stored. */
  lemma PointerStep(m: Memory, a: nat, rsp: int, list: seq<Text>, i: nat, next: nat)
    requires i < |list| && a + 8 * i + 8 <= |m| && Words(m, a, Pointers(rsp, list[..i]))
    requires next == rsp - Sum(list[..i + 1]) && next < WORD_LIMIT
    ensures Words(Store(m, a + 8 * i, next), a, Pointers(rsp, list[..i + 1]))
  {
    hide Sum, Words, Pointers, Load;
    var n := Store(m, a + 8 * i, next);
    assert list[..i + 1] == list[..i] + [list[i]];
    SumAppend(list[..i], list[i]);
    PointersAppend(rsp, list[..i], list[i]);
    PointersLength(rsp, list[..i]);
    LoadStore(m, a + 8 * i, next);
    WordsKeep(m, n, a, Pointers(rsp, list[..i]));
    WordsOne(n, a + 8 * i, next);
    WordsAppend(n, a, Pointers(rsp, list[..i]), [next]);
  }

  lemma WordsNone(m: Memory, a: nat)
    ensures Words(m, a, [])
  {
  }

  lemma SameSelf(m: Memory, a: int)
    ensures Same(m, m, a)
  {
  }

  lemma PointersNone(m: Memory, a: nat, rsp: int, list: seq<Text>)
    ensures Words(m, a, Pointers(rsp, list[..0])) && Sum(list[..0]) == 0
  {
  }

  lemma StoreSame(m: Memory, a: nat, v: nat, top: int)
    requires a + 8 <= |m| && a + 8 <= top
    ensures Same(m, Store(m, a, v), top)
  {
  }

  lemma WordsPush(m: Memory, a: nat, v: int, words: seq<int>)
    requires a + 8 <= |m| && Load(m, a) == v && Words(m, a + 8, words)
    ensures Words(m, a, [v] + words)
  {
    assert ([v] + words)[1..] == words;
  }

  lemma WordsOne(m: Memory, a: nat, v: int)
    requires a + 8 <= |m| && Load(m, a) == v
    ensures Words(m, a, [v])
  {
    assert [v][1..] == [];
  }

  lemma CopyText(m: Memory, a: nat, s: Text)
    requires ZeroBelow(m, a + |s| + 1)
    ensures var n := m[..a] + s + m[a + |s|..];
      CString(n, a, s) && Same(m, n, a + |s| + 1) && ZeroBelow(n, a)
  {
  }
}
