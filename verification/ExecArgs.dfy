/** Argument strings on their way into a new program (fs/exec.c, copy_strings and remove_arg_zero;
    fs/binfmt_aout.c, create_aout_tables). Bytes are numbers, and 0 ends a string. */
module ExecArgs {

  const PAGE_SIZE := 4096
  const MAX_ARG_PAGES := 32
  const WORD_SIZE := 4
  /** Strings are packed downwards from here; the last word of the last page stays free. */
  const TOP := PAGE_SIZE * MAX_ARG_PAGES - WORD_SIZE

  /** Where the stack of a new program begins, and where its argument pages start (i386). */
  const STACK_TOP := 0xC000_0000
  const STACK_BASE := STACK_TOP - PAGE_SIZE * MAX_ARG_PAGES

  ghost predicate IsString(s: seq<int>) { 0 !in s }

  ghost predicate AreStrings(ss: seq<seq<int>>) { forall s :: s in ss ==> IsString(s) }

  /** Strings one after the other, each with its end mark. */
  function Packed(ss: seq<seq<int>>): seq<int> { if ss == [] then [] else (ss[0] + [0]) + Packed(ss[1..]) }

  // ---- pages ----

  /** The byte at an address of the argument area; pages that are not there read as 0. */
  function ByteAt(page: map<nat, seq<int>>, a: nat): int {
    if a / PAGE_SIZE in page && a % PAGE_SIZE < |page[a / PAGE_SIZE]| then page[a / PAGE_SIZE][a % PAGE_SIZE] else 0
  }

  ghost predicate PagesOk(page: map<nat, seq<int>>)
  {
    forall i :: i in page ==> i < MAX_ARG_PAGES && |page[i]| == PAGE_SIZE
  }

  /** A page as the allocator hands it out; nothing is known about its bytes. */
  method AllocPage() returns (bytes: seq<int>)
    ensures |bytes| == PAGE_SIZE
  {
    bytes := seq(PAGE_SIZE, i => 0);
  }

  /** One piece of a string put into its page; a new page is cleared around it. */
  method PutPiece(page: map<nat, seq<int>>, pos: nat, piece: seq<int>) returns (r: map<nat, seq<int>>)
    requires PagesOk(page) && pos < PAGE_SIZE * MAX_ARG_PAGES && 0 < |piece| <= PAGE_SIZE - pos % PAGE_SIZE
    ensures PagesOk(r) && r.Keys == page.Keys + {pos / PAGE_SIZE}
    ensures forall a: nat :: ByteAt(r, a) == if pos <= a < pos + |piece| then piece[a - pos] else ByteAt(page, a)
  {
    var offset, i := pos % PAGE_SIZE, pos / PAGE_SIZE;
    var bytes;
    if i in page {
      bytes := page[i];
    } else {
      bytes := AllocPage();
      bytes := seq(offset, j => 0) + bytes[offset..];
      if |piece| < PAGE_SIZE - offset {
        bytes := bytes[..offset + |piece|] + seq(PAGE_SIZE - offset - |piece|, j => 0);
      }
    }
    bytes := bytes[..offset] + piece + bytes[offset + |piece|..];
    r := page[i := bytes];
    forall a: nat ensures ByteAt(r, a) == if pos <= a < pos + |piece| then piece[a - pos] else ByteAt(page, a) {
      if a / PAGE_SIZE == i { assert a % PAGE_SIZE - offset == a - pos; }
    }
  }

  lemma {:induction false} PackedConcat(a: seq<seq<int>>, b: seq<seq<int>>)
    ensures Packed(a + b) == Packed(a) + Packed(b)
  {
    if a == [] {
      assert a + b == b;
    } else {
      PackedConcat(a[1..], b);
      assert (a + b)[1..] == a[1..] + b;
      Regroup(a[0] + [0], Packed(a[1..]), Packed(b));
    }
  }

  lemma {:induction false} Regroup(a: seq<int>, b: seq<int>, c: seq<int>)
    ensures a + (b + c) == (a + b) + c
  {}

  lemma {:induction false} NonePacked(ss: seq<seq<int>>)
    ensures Packed(ss[|ss|..]) == []
  {}

  lemma {:induction false} PackedTail(ss: seq<seq<int>>, k: nat)
    requires k < |ss|
    ensures Packed(ss[k..]) == (ss[k] + [0]) + Packed(ss[k + 1..])
  {
    assert ss[k..][1..] == ss[k + 1..];
  }

  lemma {:induction false} TailShorter(ss: seq<seq<int>>, k: nat)
    requires k <= |ss|
    ensures |Packed(ss[k..])| <= |Packed(ss)|
  {
    PackedConcat(ss[..k], ss[k..]);
    assert ss[..k] + ss[k..] == ss;
  }

  /** The strings packed so far, as one run of bytes. */
  function Area(page: map<nat, seq<int>>, p: nat): (r: seq<int>)
    requires p <= TOP
    ensures |r| == TOP - p
  {
    seq(TOP - p, i requires 0 <= i < TOP - p => ByteAt(page, p + i))
  }

  lemma {:induction false} AreaGrown(before: map<nat, seq<int>>, page: map<nat, seq<int>>, p: nat, z: seq<int>)
    requires p + |z| <= TOP
    requires forall a: nat :: ByteAt(page, a) == if p <= a < p + |z| then z[a - p] else ByteAt(before, a)
    ensures Area(page, p) == z + Area(before, p + |z|)
  {
    hide ByteAt;
  }

  lemma {:induction false} AreaAt(page: map<nat, seq<int>>, p: nat, i: nat)
    requires p + i < TOP && PagesOk(page)
    ensures Area(page, p)[i] == ByteAt(page, p + i)
    ensures (p + i) / PAGE_SIZE in page ==> ByteAt(page, p + i) == page[(p + i) / PAGE_SIZE][(p + i) % PAGE_SIZE]
  {}

  /** What follows the first string, when `n` bytes with its end mark are taken off. */
  lemma {:induction false} AreaRest(page: map<nat, seq<int>>, p: nat, n: nat)
    requires 0 < n && p + n <= TOP && Area(page, p)[n - 1] == 0 && forall i :: 0 <= i < n - 1 ==> Area(page, p)[i] != 0
    ensures exists s :: IsString(s) && Area(page, p) == (s + [0]) + Area(page, p + n)
  {
    var b := Area(page, p);
    var s := b[..n - 1];
    assert IsString(s);
    assert b == (s + [0]) + Area(page, p + n);
  }

  class Binprm {
    var p: nat
    var page: map<nat, seq<int>>
    var argc: nat

    /** Every packed byte has its page. */
    ghost predicate Valid()
      reads this
    {
      p <= TOP && PagesOk(page) && forall a: nat :: p <= a < TOP ==> a / PAGE_SIZE in page
    }

    /** Nothing but the packed strings is in the pages. */
    ghost predicate Clean()
      reads this
    {
      forall a: nat :: a < p || TOP <= a ==> ByteAt(page, a) == 0
    }

    function Bytes(): seq<int>
      requires p <= TOP
      reads this
    {
      Area(page, p)
    }

    constructor ()
      ensures Valid() && Clean() && p == TOP
    {
      p, page, argc := TOP, map[], 0;
    }

    /** One string, with its end mark, below the others; it may span pages. */
    method CopyString(str: seq<int>) returns (ok: bool)
      requires Valid()
      modifies this`p, this`page
      ensures Valid() && (old(Clean()) ==> Clean()) && (ok <==> |str| + 1 <= old(p))
      ensures ok ==> p == old(p) - |str| - 1 && Bytes() == (str + [0]) + old(Bytes())
      ensures !ok ==> p == old(p) && page == old(page)
    {
      hide ByteAt, Area, PagesOk;
      var z := str + [0];
      if p < |z| { return false; }
      ghost var before := page;
      p := p - |z|;
      var pos, done := p, 0;
      while done < |z|
        invariant done <= |z| && pos == p + done && p == old(p) - |z| && PagesOk(page)
        invariant before.Keys <= page.Keys && forall a: nat :: p <= a < pos ==> a / PAGE_SIZE in page
        invariant forall a: nat :: ByteAt(page, a) == if p <= a < pos then z[a - p] else ByteAt(before, a)
        decreases |z| - done
      {
        var n := PAGE_SIZE - pos % PAGE_SIZE;
        if n > |z| - done { n := |z| - done; }
        page := PutPiece(page, pos, z[done..done + n]);
        pos, done := pos + n, done + n;
      }
      ok := true;
      AreaGrown(before, page, p, z);
    }

    method CopyStrings(ss: seq<seq<int>>) returns (ok: bool)
      requires Valid()
      modifies this`p, this`page
      ensures Valid() && (old(Clean()) ==> Clean()) && (ok <==> |Packed(ss)| <= old(p))
      ensures ok ==> p == old(p) - |Packed(ss)| && Bytes() == Packed(ss) + old(Bytes())
    {
      hide Packed, PagesOk, ByteAt, Area;
      var k := |ss|;
      NonePacked(ss);
      ghost var above := Bytes();
      assert [] + above == above;
      while k > 0
        invariant 0 <= k <= |ss| && Valid() && p == old(p) - |Packed(ss[k..])| && (old(Clean()) ==> Clean())
        invariant Bytes() == Packed(ss[k..]) + above
      {
        k := k - 1;
        PackedTail(ss, k);
        TailShorter(ss, k);
        ok := CopyString(ss[k]);
        if !ok { return; }
        Regroup(ss[k] + [0], Packed(ss[k + 1..]), above);
      }
      ok := true;
      assert ss[0..] == ss;
    }

    /** The order in which do_execve packs: the file name on top, the environment, the arguments. */
    method DoExecve(filename: seq<int>, argv: seq<seq<int>>, envp: seq<seq<int>>) returns (ok: bool)
      requires Valid() && Clean() && p == TOP
      modifies this
      ensures ok <==>
        && |argv| <= TOP / WORD_SIZE && |envp| <= TOP / WORD_SIZE
        && |Packed(argv)| + |Packed(envp)| + |filename| + 1 <= TOP
      ensures Valid() && Clean()
      ensures ok ==> argc == |argv| && Bytes() == Packed(argv) + (Packed(envp) + (filename + [0]))
    {
      hide Packed, ByteAt, PagesOk, Area;
      if |argv| > TOP / WORD_SIZE || |envp| > TOP / WORD_SIZE { return false; }
      argc := |argv|;
      ghost var none := Bytes();
      ok := CopyString(filename);
      if !ok { return; }
      assert (filename + [0]) + none == filename + [0];
      ok := CopyStrings(envp);
      if !ok { return; }
      ok := CopyStrings(argv);
    }

    /** remove_arg_zero: the first string goes, wherever its pages end. */
    method RemoveArgZero()
      requires Valid() && (argc > 0 ==> 0 in Bytes())
      modifies this`p, this`argc
      ensures Valid() && (old(argc) == 0 ==> p == old(p) && argc == 0)
      ensures old(argc) > 0 ==> argc == old(argc) - 1 && exists s :: IsString(s) && old(Bytes()) == (s + [0]) + Bytes()
    {
      hide ByteAt, Area;
      if argc > 0 {
        ghost var b := Bytes();
        ghost var n :| 0 <= n < |b| && b[n] == 0;
        var offset, kaddr := p % PAGE_SIZE, page[p / PAGE_SIZE];
        while true
          invariant argc == old(argc) && PagesOk(page) && old(p) <= p <= old(p) + n
          invariant forall i :: 0 <= i < p - old(p) ==> b[i] != 0
          invariant offset == p % PAGE_SIZE && p / PAGE_SIZE in page && kaddr == page[p / PAGE_SIZE]
          decreases TOP - p
        {
          AreaAt(page, old(p), p - old(p));
          p := p + 1;
          var c := kaddr[offset];
          offset := offset + 1;
          if c == 0 { break; }
          if offset == PAGE_SIZE {
            offset := 0;
            kaddr := page[p / PAGE_SIZE];
          }
        }
        argc := argc - 1;
        AreaRest(page, old(p), p - old(p));
      }
    }
  }

  // ---- the tables a new program finds ----

  /** The string that starts at a place of memory. */
  function CString(mem: seq<int>, k: nat): (s: seq<int>)
    requires k <= |mem|
    decreases |mem| - k
  {
    if k == |mem| || mem[k] == 0 then [] else [mem[k]] + CString(mem, k + 1)
  }

  lemma {:induction false} CStringIs(mem: seq<int>, k: nat, s: seq<int>, rest: seq<int>)
    requires IsString(s) && k <= |mem| && mem[k..] == (s + [0]) + rest
    ensures CString(mem, k) == s
    decreases |s|
  {
    assert mem[k] == mem[k..][0];
    if s != [] {
      assert mem[k + 1..] == mem[k..][1..];
      assert mem[k + 1..] == (s[1..] + [0]) + rest;
      CStringIs(mem, k + 1, s[1..], rest);
    }
  }

  /** The words of a new stack that are known, by address. */
  type Words = map<nat, nat>

  /** Table `at` holds the addresses of the strings, which are packed from address `p` on, and ends
      with a null. */
  ghost predicate TableOf(words: Words, at: nat, p: nat, ss: seq<seq<int>>) {
    && (forall i :: 0 <= i < |ss| ==> at + WORD_SIZE * i in words && words[at + WORD_SIZE * i] == p + |Packed(ss[..i])|)
    && at + WORD_SIZE * |ss| in words && words[at + WORD_SIZE * |ss|] == 0
  }

  /** Walks over one string. */
  method SkipString(mem: seq<int>, at: nat, ghost s: seq<int>, ghost rest: seq<int>) returns (end: nat)
    requires at <= |mem| && IsString(s) && mem[at..] == (s + [0]) + rest
    ensures end == at + |s| + 1
  {
    end := at;
    ghost var z := s + [0];
    assert forall i :: 0 <= i < |z| ==> mem[at + i] == mem[at..][i] == (z + rest)[i] == z[i];
    while true
      invariant at <= end <= at + |s|
      decreases |mem| - end
    {
      var c := mem[end];
      assert c == z[end - at];
      end := end + 1;
      if c == 0 { break; }
      assert s[end - 1 - at] in s;
    }
  }

  /** The words outside a table of `n` words and its null are as they were. */
  ghost predicate OnlyTable(words0: Words, words: Words, table: nat, n: nat) {
    forall a {:trigger a in words} :: !(table <= a <= table + WORD_SIZE * n) ==>
      (a in words <==> a in words0) && (a in words ==> words[a] == words0[a])
  }

  /** The first `i` entries are there. */
  ghost predicate Entries(words: Words, table: nat, p: nat, ss: seq<seq<int>>, i: nat)
    requires i <= |ss|
  {
    forall j :: 0 <= j < i ==> table + WORD_SIZE * j in words && words[table + WORD_SIZE * j] == p + |Packed(ss[..j])|
  }

  lemma {:induction false} EntryNext(words: Words, table: nat, p: nat, ss: seq<seq<int>>, i: nat)
    requires i < |ss| && Entries(words, table, p, ss, i)
    ensures Entries(words[table + WORD_SIZE * i := p + |Packed(ss[..i])|], table, p, ss, i + 1)
  {
    hide Packed;
  }

  lemma {:induction false} EntriesEnd(words: Words, table: nat, p: nat, ss: seq<seq<int>>)
    requires Entries(words, table, p, ss, |ss|)
    ensures TableOf(words[table + WORD_SIZE * |ss| := 0], table, p, ss)
  {
    hide Packed;
  }

  /** Fills in one table and returns where its strings end. */
  method FillTable(words0: Words, table: nat, p: nat, mem: seq<int>, from: nat, count: nat, ghost ss: seq<seq<int>>,
          ghost rest: seq<int>)
    returns (words: Words, end: nat)
    requires |ss| == count && AreStrings(ss) && from <= |mem| && mem[from..] == Packed(ss) + rest
    ensures end == from + |Packed(ss)| && TableOf(words, table, p + from, ss) && OnlyTable(words0, words, table, count)
  {
    hide Packed, Entries, TableOf;
    words, end := words0, from;
    var i := 0;
    assert ss[..0] == [] && Packed([]) == [] by { NonePacked([]); }
    NoEntries(words, table, p + from, ss);
    while i < count
      invariant 0 <= i <= count && end == from + |Packed(ss[..i])| && end <= |mem|
      invariant Entries(words, table, p + from, ss, i) && OnlyTable(words0, words, table, count)
    {
      EntryNext(words, table, p + from, ss, i);
      words := words[table + WORD_SIZE * i := p + end];
      ghost var z := PackedSplit(ss, i);
      Advance(mem, from, Packed(ss[..i]), ss[i] + [0], z, rest);
      assert ss[i] in ss;
      end := SkipString(mem, end, ss[i], z + rest);
      i := i + 1;
    }
    EntriesEnd(words, table, p + from, ss);
    words := words[table + WORD_SIZE * count := 0];
    assert ss[..i] == ss;
  }

  lemma {:induction false} NoEntries(words: Words, table: nat, p: nat, ss: seq<seq<int>>)
    ensures Entries(words, table, p, ss, 0)
  {}

  lemma {:induction false} Advance(mem: seq<int>, from: nat, a: seq<int>, b: seq<int>, z: seq<int>, rest: seq<int>)
    requires from <= |mem| && mem[from..] == (a + (b + z)) + rest
    ensures from + |a| + |b| <= |mem| && mem[from + |a|..] == b + (z + rest)
  {
    assert (a + (b + z)) + rest == a + (b + (z + rest));
    assert mem[from + |a|..] == mem[from..][|a|..];
  }

  lemma {:induction false} PackedSplit(ss: seq<seq<int>>, i: nat) returns (z: seq<int>)
    requires i < |ss|
    ensures Packed(ss) == Packed(ss[..i]) + ((ss[i] + [0]) + z)
    ensures Packed(ss[..i + 1]) == Packed(ss[..i]) + (ss[i] + [0])
  {
    PackedConcat(ss[..i], ss[i..]);
    assert ss[..i] + ss[i..] == ss;
    PackedTail(ss, i);
    z := Packed(ss[i + 1..]);
    PackedConcat(ss[..i], [ss[i]]);
    assert ss[..i] + [ss[i]] == ss[..i + 1];
    assert Packed([ss[i]]) == ss[i] + [0] by { OnePacked(ss[i]); }
  }

  lemma {:induction false} OnePacked(s: seq<int>)
    ensures Packed([s]) == s + [0]
  {
    assert [s][1..] == [];
    assert (s + [0]) + [] == s + [0];
  }

  lemma {:induction false} TableKept(words: Words, words': Words, table: nat, p: nat, ss: seq<seq<int>>, other: nat,
          n: nat)
    requires TableOf(words, table, p, ss) && OnlyTable(words, words', other, n) && table + WORD_SIZE * |ss| < other
    ensures TableOf(words', table, p, ss)
  {
    hide Packed;
  }

  /** The stack of a new program: the number of arguments, the two tables and their addresses. */
  ghost predicate StackOf(words: Words, sp: nat, p: nat, argv: seq<seq<int>>, envp: seq<seq<int>>) {
    && sp in words && sp + 4 in words && sp + 8 in words && words[sp] == |argv|
    && TableOf(words, words[sp + 4], p, argv) && TableOf(words, words[sp + 8], p + |Packed(argv)|, envp)
    && forall a :: a in words ==> sp <= a && a + WORD_SIZE <= p
  }

  /** create_aout_tables, for memory that holds the packed strings from address `p` on. The limit on
      the number of strings leaves room for the tables below. */
  method CreateAoutTables(p: nat, mem: seq<int>, argc: nat, envc: nat, ghost argv: seq<seq<int>>,
          ghost envp: seq<seq<int>>, ghost rest: seq<int>)
    returns (words: Words, sp: nat, argEnd: nat, envEnd: nat)
    requires |argv| == argc && |envp| == envc && AreStrings(argv) && AreStrings(envp)
    requires mem == Packed(argv) + (Packed(envp) + rest)
    requires p >= STACK_BASE && argc <= TOP / WORD_SIZE && envc <= TOP / WORD_SIZE
    ensures StackOf(words, sp, p, argv, envp)
    ensures argEnd == p + |Packed(argv)| && envEnd == argEnd + |Packed(envp)|
  {
    hide Packed, TableOf;
    var top := p - p % WORD_SIZE;
    var envpAt := top - WORD_SIZE * (envc + 1);
    var argvAt := envpAt - WORD_SIZE * (argc + 1);
    sp := argvAt - 12;
    words := map[argvAt - 4 := envpAt, argvAt - 8 := argvAt, sp := argc];
    assert mem[0..] == mem;
    var w, end := FillTable(words, argvAt, p, mem, 0, argc, argv, Packed(envp) + rest);
    argEnd := p + end;
    assert mem[end..] == Packed(envp) + rest;
    var w', end' := FillTable(w, envpAt, p, mem, end, envc, envp, rest);
    envEnd := p + end';
    TableKept(w, w', argvAt, p, argv, envpAt, envc);
    TablesBelow(words, w, w', sp, argvAt, argc, envpAt, envc, p);
    words := w';
  }

  lemma {:induction false} TablesBelow(words: Words, w: Words, w': Words, sp: nat, argvAt: nat, argc: nat,
          envpAt: nat, envc: nat, p: nat)
    requires OnlyTable(words, w, argvAt, argc) && OnlyTable(w, w', envpAt, envc)
    requires sp + 12 == argvAt && argvAt + WORD_SIZE * (argc + 1) == envpAt && envpAt + WORD_SIZE * (envc + 1) <= p
    requires words.Keys == {sp, sp + 4, sp + 8}
    ensures sp in w' && sp + 4 in w' && sp + 8 in w' && w'[sp] == words[sp] && w'[sp + 4] == words[sp + 4]
    ensures w'[sp + 8] == words[sp + 8]
    ensures forall a :: a in w' ==> sp <= a && a + WORD_SIZE <= p
  {
    assert sp in words && sp + 4 in words && sp + 8 in words;
    assert sp in w && sp + 4 in w && sp + 8 in w;
    forall a | a in w' ensures sp <= a && a + WORD_SIZE <= p {
      if !(envpAt <= a <= envpAt + WORD_SIZE * envc) {
        assert a in w;
        if !(argvAt <= a <= argvAt + WORD_SIZE * argc) { assert a in words; }
      }
    }
  }

  /** Reading at a table's address gives the string. */
  lemma {:induction false} PointerReads(words: Words, table: nat, p: nat, mem: seq<int>, from: nat, ss: seq<seq<int>>,
          rest: seq<int>, i: nat)
    requires AreStrings(ss) && from <= |mem| && mem[from..] == Packed(ss) + rest
    requires TableOf(words, table, p + from, ss) && i < |ss|
    ensures table + WORD_SIZE * i in words
    ensures var k := words[table + WORD_SIZE * i]; p <= k <= p + |mem| && CString(mem, k - p) == ss[i]
  {
    hide Packed, CString;
    var z := PackedSplit(ss, i);
    Advance(mem, from, Packed(ss[..i]), ss[i] + [0], z, rest);
    assert ss[i] in ss;
    CStringIs(mem, from + |Packed(ss[..i])|, ss[i], z + rest);
  }

  /** Following the entries of a table gives the strings. */
  ghost predicate Leads(words: Words, table: nat, p: nat, mem: seq<int>, ss: seq<seq<int>>) {
    forall i {:trigger ss[i]} :: 0 <= i < |ss| ==>
      && table + WORD_SIZE * i in words
      && var k := words[table + WORD_SIZE * i]; p <= k <= p + |mem| && CString(mem, k - p) == ss[i]
  }

  lemma {:induction false} TableLeads(words: Words, table: nat, p: nat, mem: seq<int>, from: nat, ss: seq<seq<int>>,
          rest: seq<int>)
    requires AreStrings(ss) && from <= |mem| && mem[from..] == Packed(ss) + rest && TableOf(words, table, p + from, ss)
    ensures Leads(words, table, p, mem, ss)
  {
    hide Packed, CString, TableOf;
    forall i | 0 <= i < |ss|
      ensures table + WORD_SIZE * i in words
      ensures var k := words[table + WORD_SIZE * i]; p <= k <= p + |mem| && CString(mem, k - p) == ss[i]
    {
      PointerReads(words, table, p, mem, from, ss, rest, i);
    }
  }

  /** From the strings of the caller to the tables of the new program: the argument table leads to
      the arguments, the environment table to the environment, in order, and nothing is in between. */
  method Execute(b: Binprm, filename: seq<int>, argv: seq<seq<int>>, envp: seq<seq<int>>)
    returns (ok: bool, mem: seq<int>, words: Words, sp: nat, p: nat)
    requires b.Valid() && b.Clean() && b.p == TOP && AreStrings(argv) && AreStrings(envp)
    modifies b
    ensures ok <==>
      && |argv| <= TOP / WORD_SIZE && |envp| <= TOP / WORD_SIZE
      && |Packed(argv)| + |Packed(envp)| + |filename| + 1 <= TOP
    ensures ok ==> b.Valid() && mem == b.Bytes() && p == STACK_BASE + b.p
    ensures ok ==> StackOf(words, sp, p, argv, envp)
    ensures ok ==> Leads(words, words[sp + 4], p, mem, argv) && Leads(words, words[sp + 8], p, mem, envp)
  {
    hide Packed, CString;
    mem, words, sp, p := [], map[], 0, 0;
    ok := b.DoExecve(filename, argv, envp);
    if !ok { return; }
    mem, p := b.Bytes(), STACK_BASE + b.p;
    var argEnd, envEnd;
    words, sp, argEnd, envEnd := CreateAoutTables(p, mem, |argv|, |envp|, argv, envp, filename + [0]);
    ghost var n := |Packed(argv)|;
    assert mem[0..] == mem && mem[n..] == Packed(envp) + (filename + [0]);
    TableLeads(words, words[sp + 4], p, mem, 0, argv, Packed(envp) + (filename + [0]));
    TableLeads(words, words[sp + 8], p, mem, n, envp, filename + [0]);
  }
}
