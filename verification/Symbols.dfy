/** The symbol table: the selection sort of the loader and the function cursor of the viewer. */
module Symbols {
  import opened Words
  import opened Machine

  // ---------------------------------------------------------------- the table

  /** n entries of two words each: index into the string table, then address. */
  predicate IsTable(w: seq<Word>, n: nat) {
    2 * n <= |w|
  }

  function Name(w: seq<Word>, k: nat): Word
    requires 2 * k + 1 < |w|
  {
    w[2 * k]
  }

  function Vaddr(w: seq<Word>, k: nat): Word
    requires 2 * k + 1 < |w|
  {
    w[2 * k + 1]
  }

  /** The entries as (name, address) pairs. */
  function Entries(w: seq<Word>, n: nat): (r: seq<(Word, Word)>)
    requires IsTable(w, n)
    ensures |r| == n && forall k :: 0 <= k < n ==> r[k] == (Name(w, k), Vaddr(w, k))
  {
    seq(n, k requires 0 <= k < n => (Name(w, k), Vaddr(w, k)))
  }

  /** Entry i is no higher than any later entry, for the first `upto` of n entries. */
  ghost predicate SortedUpTo(w: seq<Word>, n: nat, upto: nat)
    requires IsTable(w, n)
  {
    forall i, j | 0 <= i < j < n && i < upto :: Vaddr(w, i) <= Vaddr(w, j)
  }

  ghost predicate Sorted(w: seq<Word>, n: nat)
    requires IsTable(w, n)
  {
    SortedUpTo(w, n, n)
  }

  // ---------------------------------------------------------------- selection sort

  lemma SwapKeepsMultiset<T>(s: seq<T>, i: nat, j: nat)
    requires i < j < |s|
    ensures multiset(s[i := s[j]][j := s[i]]) == multiset(s)
  {
  }

  /** Swapping both words of two entries swaps the pairs. */
  method SwapEntries(symbols: array<Word>, n: nat, i: nat, j: nat)
    requires i < j < n && IsTable(symbols[..], n)
    modifies symbols
    ensures var before := Entries(old(symbols[..]), n);
            Entries(symbols[..], n) == before[i := before[j]][j := before[i]]
    ensures forall k :: 2 * n <= k < symbols.Length ==> symbols[k] == old(symbols[k])
  {
    var temp := symbols[2 * i + 1];
    var temp1 := symbols[2 * i];
    symbols[2 * i + 1] := symbols[2 * j + 1];
    symbols[2 * i] := symbols[2 * j];
    symbols[2 * j + 1] := temp;
    symbols[2 * j] := temp1;
  }

  /** Index of a least address among entries i and up. */
  method MinIndex(symbols: array<Word>, n: nat, i: nat) returns (min: nat)
    requires i < n && IsTable(symbols[..], n)
    ensures i <= min < n
    ensures forall k | i <= k < n :: Vaddr(symbols[..], min) <= Vaddr(symbols[..], k)
  {
    min := i;
    for j := i + 1 to n
      invariant i <= min < n
      invariant forall k | i <= k < j :: Vaddr(symbols[..], min) <= Vaddr(symbols[..], k)
    {
      if symbols[2 * j + 1] < symbols[2 * min + 1] {
        min := j;
      }
    }
  }

  /** One more entry is in place after the swap with the minimum. */
  lemma SelectStep(w: seq<Word>, w': seq<Word>, n: nat, i: nat, min: nat)
    requires IsTable(w, n) && IsTable(w', n) && i <= min < n && SortedUpTo(w, n, i)
    requires forall k | i <= k < n :: Vaddr(w, min) <= Vaddr(w, k)
    requires Entries(w', n) == Entries(w, n)[i := Entries(w, n)[min]][min := Entries(w, n)[i]]
    ensures SortedUpTo(w', n, i + 1)
  {
    var e, e' := Entries(w, n), Entries(w', n);
    forall a, b | 0 <= a < b < n && a < i + 1 ensures Vaddr(w', a) <= Vaddr(w', b) {
      assert e'[a] == (Name(w', a), Vaddr(w', a)) && e'[b] == (Name(w', b), Vaddr(w', b));
      var a0 := if a == i then min else a;
      var b0 := if b == min then i else if b == i then min else b;
      assert e'[a] == e[a0] && e'[b] == e[b0];
    }
  }

  /** The selection sort orders the addresses, keeps every pair together and loses none. */
  method SortSymbols(symbols: array<Word>, ccc: nat)
    requires ccc >= 1 && IsTable(symbols[..], ccc)
    modifies symbols
    ensures Sorted(symbols[..], ccc)
    ensures multiset(Entries(symbols[..], ccc)) == multiset(Entries(old(symbols[..]), ccc))
    ensures forall k :: 2 * ccc <= k < symbols.Length ==> symbols[k] == old(symbols[k])
  {
    var i := 0;
    while i < ccc - 1
      invariant 0 <= i <= ccc - 1
      invariant SortedUpTo(symbols[..], ccc, i)
      invariant multiset(Entries(symbols[..], ccc)) == multiset(Entries(old(symbols[..]), ccc))
      invariant forall k :: 2 * ccc <= k < symbols.Length ==> symbols[k] == old(symbols[k])
    {
      var min := MinIndex(symbols, ccc, i);
      ghost var w := symbols[..];
      if min != i {
        SwapKeepsMultiset(Entries(w, ccc), i, min);
        SwapEntries(symbols, ccc, i, min);
      }
      SelectStep(w, symbols[..], ccc, i, min);
      i := i + 1;
    }
  }

  // ---------------------------------------------------------------- the cursor

  /** func (index of its name), fbase, limit and strcount. */
  datatype Cursor = Cursor(func: Word, fbase: Word, limit: Word, strcount: nat)

  /** Entry k is the function that contains address a. */
  predicate Contains(w: seq<Word>, n: nat, k: nat, a: Word)
    requires IsTable(w, n)
  {
    k + 1 < n && Vaddr(w, k) <= a < Vaddr(w, k + 1)
  }

  /** The cursor that stands on entry k. */
  function At(w: seq<Word>, k: nat): Cursor
    requires 2 * (k + 1) + 1 < |w|
  {
    Cursor(Name(w, k), Vaddr(w, k), Vaddr(w, k + 1), k)
  }

  /** The full linear lookup: the first entry from k on that contains a. */
  function Lookup(w: seq<Word>, n: nat, a: Word, k: nat): (r: Option<nat>)
    requires IsTable(w, n)
    ensures r.Some? ==> k <= r.value && Contains(w, n, r.value, a)
    ensures r.None? ==> forall j | k <= j :: !Contains(w, n, j, a)
    decreases n - k
  {
    if k + 1 >= n then None
    else if Contains(w, n, k, a) then Some(k)
    else Lookup(w, n, a, k + 1)
  }

  /** The reads of one later row stay inside the table. */
  predicate Readable(w: seq<Word>, n: nat, c: Cursor, a: Word) {
    && IsTable(w, n) && 2 * c.strcount + 1 < |w|
    && (a >= c.limit ==>
          && (a < Vaddr(w, c.strcount) ==> c.strcount >= 1)
          && 2 * (c.strcount + 1) + 1 < |w|
          && (Vaddr(w, c.strcount + 1) <= a ==> 2 * (c.strcount + 2) + 1 < |w|))
  }

  /** The cursor after a later row at address a. */
  function Next(w: seq<Word>, n: nat, c: Cursor, a: Word): Cursor
    requires Readable(w, n, c, a)
  {
    var k := c.strcount;
    if a < c.limit then c
    else if a < Vaddr(w, k) && a >= Vaddr(w, k - 1) then
      Cursor(Name(w, k - 1), Vaddr(w, k - 1), c.fbase, k - 1)
    else if Vaddr(w, k + 1) <= a && a < Vaddr(w, k + 2) then
      Cursor(Name(w, k + 1), c.limit, Vaddr(w, k + 2), k + 1)
    else
      match Lookup(w, n, a, 0)
      case Some(j) => At(w, j)
      case None => c
  }

  /** In a sorted table at most one entry contains an address, duplicates included. */
  lemma ContainsUnique(w: seq<Word>, n: nat, i: nat, j: nat, a: Word)
    requires IsTable(w, n) && Sorted(w, n) && Contains(w, n, i, a) && Contains(w, n, j, a)
    ensures i == j
  {
  }

  /** Every address from the first symbol up to the last is found. */
  lemma {:induction false} LookupFinds(w: seq<Word>, n: nat, a: Word, k: nat)
    requires IsTable(w, n) && k < n && Vaddr(w, k) <= a < Vaddr(w, n - 1)
    ensures Lookup(w, n, a, k).Some?
    decreases n - k
  {
    if k + 1 < n && Vaddr(w, k + 1) <= a {
      LookupFinds(w, n, a, k + 1);
    }
  }

  /** The unique entry that contains an address of the table. */
  ghost function FunctionOf(w: seq<Word>, n: nat, a: Word): (k: nat)
    requires IsTable(w, n) && n > 0 && Vaddr(w, 0) <= a < Vaddr(w, n - 1)
    ensures Contains(w, n, k, a)
  {
    LookupFinds(w, n, a, 0);
    Lookup(w, n, a, 0).value
  }

  /**
   * From a correct cursor, a row keeps every read inside the table and leaves the cursor correct exactly when
   * its address is not below the function that the cursor stands on.
   */
  lemma NextIsLookup(w: seq<Word>, n: nat, k: nat, a: Word)
    requires IsTable(w, n) && n > 0 && Sorted(w, n) && k + 1 < n
    requires Vaddr(w, 0) <= a < Vaddr(w, n - 1)
    ensures Readable(w, n, At(w, k), a)
    ensures Next(w, n, At(w, k), a) == At(w, FunctionOf(w, n, a)) <==> Vaddr(w, k) <= a
  {
    var f := FunctionOf(w, n, a);
    assert Vaddr(w, k) <= Vaddr(w, k + 1);
    if k + 1 == n - 1 {
      assert a < Vaddr(w, k + 1);
    }
    if Vaddr(w, k) <= a < Vaddr(w, k + 1) {
      ContainsUnique(w, n, k, f, a);
    } else if Vaddr(w, k + 1) <= a && k + 2 < n && a < Vaddr(w, k + 2) {
      ContainsUnique(w, n, k + 1, f, a);
    }
  }

  /**
   * Functions start at 10, 20 and 30. From the second one, a row at 15 is below the cursor's limit, so the
   * cursor stays, although 15 belongs to the first.
   */
  lemma CursorStaysExample()
    ensures var w: seq<Word> := [0, 10, 1, 20, 2, 30];
            && IsTable(w, 3) && Sorted(w, 3) && Readable(w, 3, At(w, 1), 15)
            && FunctionOf(w, 3, 15) == 0 && Next(w, 3, At(w, 1), 15) == At(w, 1) != At(w, 0)
  {
    var w: seq<Word> := [0, 10, 1, 20, 2, 30];
    assert Contains(w, 3, 0, 15);
    ContainsUnique(w, 3, 0, FunctionOf(w, 3, 15), 15);
  }

  /** The scan of the first row; it reads one entry past k only while entry k is not above the address. */
  method FirstRow(symbols: array<Word>, ccc: nat, addr: Word) returns (c: Option<Cursor>)
    requires ccc >= 1 && IsTable(symbols[..], ccc) && addr < Vaddr(symbols[..], ccc - 1)
    ensures c == match Lookup(symbols[..], ccc, addr, 0) case Some(k) => Some(At(symbols[..], k)) case None => None
  {
    ghost var w := symbols[..];
    for k := 0 to ccc
      invariant Lookup(w, ccc, addr, 0) == Lookup(w, ccc, addr, k)
    {
      if symbols[2 * k + 1] <= addr && addr < symbols[2 * (k + 1) + 1] {
        return Some(Cursor(symbols[2 * k], symbols[2 * k + 1], symbols[2 * (k + 1) + 1], k));
      }
    }
    c := None;
  }

  /** One later row. */
  method NextRow(symbols: array<Word>, ccc: nat, c: Cursor, addr: Word) returns (c': Cursor)
    requires ccc >= 1 && Readable(symbols[..], ccc, c, addr)
    ensures c' == Next(symbols[..], ccc, c, addr)
  {
    var Cursor(func, fbase, limit, strcount) := c;
    if addr < limit {
    } else if addr < symbols[2 * strcount + 1] && addr >= symbols[2 * (strcount - 1) + 1] {
      strcount := strcount - 1;
      limit := fbase;
      fbase := symbols[2 * strcount + 1];
      func := symbols[2 * strcount];
    } else if symbols[2 * (strcount + 1) + 1] <= addr && addr < symbols[2 * (strcount + 2) + 1] {
      strcount := strcount + 1;
      fbase := limit;
      func := symbols[2 * strcount];
      limit := symbols[2 * (strcount + 1) + 1];
    } else {
      ghost var w := symbols[..];
      for k := 0 to ccc - 1
        invariant Lookup(w, ccc, addr, 0) == Lookup(w, ccc, addr, k)
        invariant Cursor(func, fbase, limit, strcount) == c
      {
        if symbols[2 * k + 1] <= addr && addr < symbols[2 * (k + 1) + 1] {
          func := symbols[2 * k];
          fbase := symbols[2 * k + 1];
          limit := symbols[2 * (k + 1) + 1];
          strcount := k;
          break;
        }
      }
    }
    c' := Cursor(func, fbase, limit, strcount);
  }

  /** Each row is at or above the start of the function of the row before it; non-decreasing rows are. */
  ghost predicate NeverBelowFunction(w: seq<Word>, n: nat, rows: seq<Word>)
    requires InTable(w, n, rows)
  {
    forall i | 0 < i < |rows| :: Vaddr(w, FunctionOf(w, n, rows[i - 1])) <= rows[i]
  }

  /** Row addresses from the first symbol up to the last. */
  ghost predicate InTable(w: seq<Word>, n: nat, rows: seq<Word>) {
    IsTable(w, n) && n > 0 && forall i | 0 <= i < |rows| :: Vaddr(w, 0) <= rows[i] < Vaddr(w, n - 1)
  }

  lemma NonDecreasingRows(w: seq<Word>, n: nat, rows: seq<Word>)
    requires InTable(w, n, rows) && forall i | 0 < i < |rows| :: rows[i - 1] <= rows[i]
    ensures NeverBelowFunction(w, n, rows)
  {
    hide Lookup;
    forall i | 0 < i < |rows| ensures Vaddr(w, FunctionOf(w, n, rows[i - 1])) <= rows[i] {
      assert Contains(w, n, FunctionOf(w, n, rows[i - 1]), rows[i - 1]);
    }
  }

  /** Row by row, the incremental cursor is the one that a full lookup of the row's address gives. */
  method CursorOfRows(symbols: array<Word>, ccc: nat, rows: seq<Word>) returns (trace: seq<Cursor>)
    requires InTable(symbols[..], ccc, rows) && Sorted(symbols[..], ccc)
    requires NeverBelowFunction(symbols[..], ccc, rows)
    ensures |trace| == |rows|
    ensures forall i | 0 <= i < |rows| :: trace[i] == At(symbols[..], FunctionOf(symbols[..], ccc, rows[i]))
  {
    hide Next, Readable, Sorted;
    trace := [];
    ghost var w := symbols[..];
    var c := Cursor(0, 0, 0, 0);
    for i := 0 to |rows|
      invariant |trace| == i
      invariant forall k | 0 <= k < i :: trace[k] == At(w, FunctionOf(w, ccc, rows[k]))
      invariant i > 0 ==> c == At(w, FunctionOf(w, ccc, rows[i - 1]))
    {
      if i == 0 {
        var found := FirstRow(symbols, ccc, rows[0]);
        LookupFinds(w, ccc, rows[0], 0);
        c := found.value;
      } else {
        NextIsLookup(w, ccc, FunctionOf(w, ccc, rows[i - 1]), rows[i]);
        c := NextRow(symbols, ccc, c, rows[i]);
      }
      trace := trace + [c];
    }
  }
}
