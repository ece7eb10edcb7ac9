/**
  The global registry of shadow buffers. mmap draws a random base index for a new buffer and
  numbers its pages from it; the block layer later finds the buffer from a page's number alone.
*/
module Registry {
  import opened Units

  const MIN_BASE_INDEX := 0x1_0000_0000
  const MAX_TRIES := 10

  type Draw = x: int | 0 <= x < 0x1_0000_0000

  /** A registered buffer: its base index, and the page that each metadata block points back to. */
  datatype Entry = Entry(base: nat, pages: seq<int>)

  /** The number stamped on page `j` of a buffer. */
  function PageIndex(base: nat, j: nat): nat {
    base * MAX_SHADOW_PAGES + j
  }

  predicate Taken(groups: seq<Entry>, base: nat) {
    exists i :: 0 <= i < |groups| && groups[i].base == base
  }

  /** The buffer with a base index, as the hash lookup finds it. */
  method Find(groups: seq<Entry>, base: nat) returns (i: int)
    ensures -1 <= i < |groups|
    ensures i >= 0 ==> groups[i].base == base && forall j | 0 <= j < i :: groups[j].base != base
    ensures i < 0 <==> !Taken(groups, base)
  {
    for k := 0 to |groups|
      invariant forall j | 0 <= j < k :: groups[j].base != base
    {
      if groups[k].base == base {
        return k;
      }
    }
    return -1;
  }

  /** The first of the drawn base indices that is free, if one is among the first `n`. */
  function FirstFree(groups: seq<Entry>, draws: seq<Draw>, k: nat, n: nat): (r: Option<nat>)
    requires k <= n <= |draws|
    ensures r.Some? ==> !Taken(groups, r.value) && MIN_BASE_INDEX <= r.value < 2 * MIN_BASE_INDEX
    ensures r.None? <==> forall j | k <= j < n :: Taken(groups, MIN_BASE_INDEX + draws[j])
    decreases n - k
  {
    if k == n then None
    else if Taken(groups, MIN_BASE_INDEX + draws[k]) then FirstFree(groups, draws, k + 1, n)
    else Some(MIN_BASE_INDEX + draws[k])
  }

  /** What mmap and the final release do to the registry. */
  datatype Op = Mmap(draws: seq<Draw>, pages: seq<int>) | Release(base: nat)

  predicate ValidOp(op: Op) {
    op.Mmap? ==> |op.draws| == MAX_TRIES && |op.pages| <= MAX_SHADOW_PAGES
  }

  /** Drop the first buffer with a base index. */
  function Without(groups: seq<Entry>, base: nat): seq<Entry> {
    if |groups| == 0 then []
    else if groups[0].base == base then groups[1..]
    else [groups[0]] + Without(groups[1..], base)
  }

  lemma {:induction false} WithoutAt(groups: seq<Entry>, base: nat, i: nat)
    requires i <= |groups| && forall j | 0 <= j < i :: groups[j].base != base
    requires i < |groups| ==> groups[i].base == base
    ensures Without(groups, base) == if i < |groups| then groups[..i] + groups[i + 1..] else groups
  {
    if |groups| > 0 && i > 0 {
      var rest := groups[1..];
      WithoutAt(rest, base, i - 1);
      assert groups == [groups[0]] + rest;
      if i < |groups| {
        assert groups[..i] == [groups[0]] + rest[..i - 1] && groups[i + 1..] == rest[i..];
      }
    }
  }

  function Apply(groups: seq<Entry>, op: Op): seq<Entry>
    requires ValidOp(op)
  {
    match op
    case Mmap(draws, pages) =>
      var r := FirstFree(groups, draws, 0, MAX_TRIES);
      if r.Some? then [Entry(r.value, pages)] + groups else groups
    case Release(base) => Without(groups, base)
  }

  /** The registry as the driver keeps it. */
  class Groups {
    var groups: seq<Entry>

    constructor ()
      ensures groups == []
    {
      groups := [];
    }

    /** Register a new buffer. Up to ten base indices are drawn, and none is ever used twice: the
        call fails exactly when all ten are taken. */
    method Mmap(draws: seq<Draw>, pages: seq<int>) returns (r: Option<nat>)
      requires |draws| == MAX_TRIES && |pages| <= MAX_SHADOW_PAGES
      modifies this
      ensures groups == Apply(old(groups), Op.Mmap(draws, pages))
      ensures r.None? <==> forall j | 0 <= j < MAX_TRIES :: Taken(old(groups), MIN_BASE_INDEX + draws[j])
      ensures r.Some? ==> !Taken(old(groups), r.value) && groups == [Entry(r.value, pages)] + old(groups)
    {
      var tries := MAX_TRIES;
      r := None;
      while true
        invariant 0 < tries <= MAX_TRIES && r.None? && groups == old(groups)
        invariant FirstFree(groups, draws, 0, MAX_TRIES) == FirstFree(groups, draws, MAX_TRIES - tries, MAX_TRIES)
        decreases tries
      {
        var base := MIN_BASE_INDEX + draws[MAX_TRIES - tries];
        var i := Find(groups, base);
        if i >= 0 {
          tries := tries - 1;
        } else {
          groups := [Entry(base, pages)] + groups;
          r := Some(base);
          break;
        }
        if tries == 0 {
          break;
        }
      }
    }

    /** Take a buffer off the registry on its last put. The base index is free again, and every
        other buffer stays. */
    method Release(base: nat)
      modifies this
      ensures groups == Apply(old(groups), Op.Release(base))
      ensures Valid(old(groups)) ==>
                && Valid(groups) && !Taken(groups, base)
                && (forall e :: e in groups <==> e in old(groups) && e.base != base)
    {
      if Valid(groups) {
        WithoutKeeps(groups, base);
        forall e
          ensures e in Without(groups, base) <==> e in groups && e.base != base
        {
          ReleaseExactly(groups, base, e);
        }
        forall i | 0 <= i < |Without(groups, base)|
          ensures Without(groups, base)[i].base != base
        {
          ReleaseExactly(groups, base, Without(groups, base)[i]);
        }
      }
      var i := Find(groups, base);
      WithoutAt(groups, base, if i >= 0 then i else |groups|);
      if i >= 0 {
        groups := groups[..i] + groups[i + 1..];
      }
    }
  }

  // ------------------------------------------------- page identity

  /** The registry after a sequence of operations on an empty one. */
  function Run(ops: seq<Op>): seq<Entry>
    requires forall i | 0 <= i < |ops| :: ValidOp(ops[i])
  {
    if |ops| == 0 then [] else Apply(Run(ops[..|ops| - 1]), ops[|ops| - 1])
  }

  /** Base indices are unique and large enough to tell a shadow page from any other, and no buffer
      has more pages than fit between two of them. */
  predicate Valid(groups: seq<Entry>) {
    && (forall i, j | 0 <= i < j < |groups| :: groups[i].base != groups[j].base)
    && (forall i | 0 <= i < |groups| ::
          MIN_BASE_INDEX <= groups[i].base < 2 * MIN_BASE_INDEX && |groups[i].pages| <= MAX_SHADOW_PAGES)
  }

  lemma {:induction false} WithoutKeeps(groups: seq<Entry>, base: nat)
    requires Valid(groups)
    ensures Valid(Without(groups, base))
    ensures forall e | e in Without(groups, base) :: e in groups
  {
    if |groups| > 0 {
      var rest := groups[1..];
      assert Valid(rest);
      WithoutKeeps(rest, base);
      if groups[0].base != base {
        forall i | 0 <= i < |Without(rest, base)|
          ensures Without(rest, base)[i].base != groups[0].base
        {
          assert Without(rest, base)[i] in rest;
        }
      }
    }
  }

  /** What leaves the registry: every buffer with the base index, and no other. */
  lemma {:induction false} ReleaseExactly(groups: seq<Entry>, base: nat, e: Entry)
    requires Valid(groups)
    ensures e in Without(groups, base) <==> e in groups && e.base != base
  {
    if |groups| > 0 {
      var rest := groups[1..];
      assert groups == [groups[0]] + rest;
      ReleaseExactly(rest, base, e);
      if groups[0].base == base && e in rest {
        var i :| 0 <= i < |rest| && rest[i] == e;
        assert groups[i + 1] == e;
      }
    }
  }

  lemma {:induction false} Reachable(ops: seq<Op>)
    requires forall i | 0 <= i < |ops| :: ValidOp(ops[i])
    ensures Valid(Run(ops))
  {
    if |ops| > 0 {
      Reachable(ops[..|ops| - 1]);
      var op := ops[|ops| - 1];
      if op.Release? { WithoutKeeps(Run(ops[..|ops| - 1]), op.base); }
    }
  }

  /** The number on a page gives back its buffer's base index by shifting and its place in the
      buffer by the remainder. */
  lemma PageIndexDecodes(base: nat, j: nat)
    requires j < MAX_SHADOW_PAGES
    ensures PageIndex(base, j) / MAX_SHADOW_PAGES == base && PageIndex(base, j) % MAX_SHADOW_PAGES == j
  {
  }

  /** In every registry that mmap and release can lead to, no two registered pages carry the same
      number, whatever the draws were. */
  lemma PagesIdentified(ops: seq<Op>, a: nat, j: nat, b: nat, k: nat)
    requires forall i | 0 <= i < |ops| :: ValidOp(ops[i])
    ensures var groups := Run(ops);
            && a < |groups| && b < |groups| && j < |groups[a].pages| && k < |groups[b].pages|
            && PageIndex(groups[a].base, j) == PageIndex(groups[b].base, k)
            ==> a == b && j == k
  {
    Reachable(ops);
    var groups := Run(ops);
    if a < |groups| && b < |groups| && j < |groups[a].pages| && k < |groups[b].pages| {
      PageIndexDecodes(groups[a].base, j);
      PageIndexDecodes(groups[b].base, k);
    }
  }

  /** Page `page` with number `x` is page `j` of buffer `i`. */
  predicate Holds(groups: seq<Entry>, page: int, x: nat, i: int, j: nat) {
    0 <= i < |groups| && j < |groups[i].pages| && groups[i].pages[j] == page && x == PageIndex(groups[i].base, j)
  }

  /** The buffer and slot of a page, from its number: found exactly for the pages of registered
      buffers, and for no other page that happens to carry such a number. */
  method FromPage(groups: seq<Entry>, page: int, x: nat) returns (r: Option<(int, nat)>)
    requires Valid(groups)
    ensures r.Some? ==> Holds(groups, page, x, r.value.0, r.value.1)
    ensures forall i, j: nat | Holds(groups, page, x, i, j) :: r == Some((i, j))
  {
    var base, slot := x / MAX_SHADOW_PAGES, x % MAX_SHADOW_PAGES;
    if base < MIN_BASE_INDEX {
      return None;
    }
    var i := Find(groups, base);
    if i < 0 {
      return None;
    }
    if slot >= |groups[i].pages| || groups[i].pages[slot] != page {
      return None;
    }
    return Some((i, slot));
  }
}
