/** AssignPublisherColors (plugin/zone.go): a greedy allocator with a one-way cursor over
    the palette, held against "the first free palette entry". */
module PublisherColors {
  import opened Strings
  import opened Sorting

  datatype Publisher = Publisher(id: string, color: string)

  // ----- the reference allocation

  /** A publisher as it is read: both fields trimmed. */
  function Trimmed(p: Publisher): Publisher {
    Publisher(TrimSpace(p.id), TrimSpace(p.color))
  }

  function Declarations(ps: seq<Publisher>): (ds: seq<Publisher>)
    ensures |ds| == |ps|
    ensures forall i :: 0 <= i < |ps| ==> ds[i] == Trimmed(ps[i])
  {
    seq(|ps|, i requires 0 <= i < |ps| => Trimmed(ps[i]))
  }

  /** The hint each id declares first; blank ids declare nothing. */
  function Hints(ds: seq<Publisher>): map<string, string> {
    if ds == [] then map[]
    else
      var before, d := Hints(ds[..|ds| - 1]), ds[|ds| - 1];
      if d.id == "" || d.id in before then before else before[d.id := d.color]
  }

  /** The ids in the order they are first declared. */
  function Ids(ds: seq<Publisher>): seq<string> {
    if ds == [] then []
    else
      var before, id := Ids(ds[..|ds| - 1]), ds[|ds| - 1].id;
      if id == "" || id in before then before else before + [id]
  }

  /** The first palette entry that is a color and is not used; "" when there is none. */
  function FirstFree(palette: seq<string>, used: set<string>): string {
    if palette == [] then ""
    else if palette[0] != "" && palette[0] !in used then palette[0]
    else FirstFree(palette[1..], used)
  }

  function Choose(hint: string, palette: seq<string>, used: set<string>): string {
    if hint != "" && hint !in used && hint in palette then hint else FirstFree(palette, used)
  }

  function UsedBy(given: seq<string>): set<string> {
    set c | c in given && c != ""
  }

  /** The colors given, in turn, to publishers with these hints. */
  function Given(hints: seq<string>, palette: seq<string>): (given: seq<string>)
    ensures |given| == |hints|
  {
    if hints == [] then []
    else
      var before := Given(hints[..|hints| - 1], palette);
      before + [Choose(hints[|hints| - 1], palette, UsedBy(before))]
  }

  function HintsOf(ids: seq<string>, hints: map<string, string>): (hs: seq<string>)
    ensures |hs| == |ids|
    ensures forall i :: 0 <= i < |ids| ==> hs[i] == if ids[i] in hints then hints[ids[i]] else ""
  {
    seq(|ids|, i requires 0 <= i < |ids| => if ids[i] in hints then hints[ids[i]] else "")
  }

  function Paired(ids: seq<string>, given: seq<string>): map<string, string>
    requires |ids| == |given|
  {
    if ids == [] then map[]
    else Paired(ids[..|ids| - 1], given[..|given| - 1])[ids[|ids| - 1] := given[|given| - 1]]
  }

  lemma {:induction false} IdsAreHinted(ds: seq<Publisher>)
    ensures forall id :: id in Ids(ds) <==> id in Hints(ds)
    ensures NoRepeats(Ids(ds)) && "" !in Ids(ds)
  {
    if ds != [] {
      IdsAreHinted(ds[..|ds| - 1]);
    }
  }

  /** The declared ids in the order the allocator serves them. */
  function Served(ds: seq<Publisher>): seq<string> {
    Sort(Ids(ds))
  }

  /** What declarations are given, by id. */
  function Allocate(ds: seq<Publisher>, palette: seq<string>): map<string, string> {
    Paired(Served(ds), Given(HintsOf(Served(ds), Hints(ds)), palette))
  }

  function Allocation(ps: seq<Publisher>, palette: seq<string>): map<string, string> {
    Allocate(Declarations(ps), palette)
  }

  // ----- the allocator, as the source runs it

  class Allocator {
    const palette: seq<string>
    var used: set<string>
    var next: nat
    var out: map<string, string>

    constructor (palette: seq<string>)
      ensures this.palette == palette && used == {} && out == map[] && Valid()
    {
      this.palette := palette;
      used, next, out := {}, 0, map[];
    }

    /** Nothing behind the cursor is free. */
    ghost predicate Valid()
      reads this
    {
      next <= |palette| && "" !in used && forall k :: 0 <= k < next ==> palette[k] == "" || palette[k] in used
    }

    method TakeFree() returns (color: string)
      requires Valid()
      modifies this`used, this`next
      ensures Valid()
      ensures color == FirstFree(palette, old(used))
      ensures used == old(used) + {color} - {""}
    {
      Behind(palette, next, used);
      while next < |palette|
        invariant Valid() && used == old(used)
        invariant FirstFree(palette, used) == FirstFree(palette[next..], used)
      {
        color := palette[next];
        next := next + 1;
        assert palette[next - 1..][1..] == palette[next..];
        if color == "" || color in used {
          continue;
        }
        used := used + {color};
        return;
      }
      return "";
    }

    method Assign(id: string, hint: string)
      requires Valid()
      modifies this
      ensures Valid()
      ensures var color := Choose(hint, palette, old(used));
              out == old(out)[id := color] && used == old(used) + {color} - {""}
    {
      var color := hint;
      if color != "" && color !in used && color in palette {
        used := used + {color};
        out := out[id := color];
        return;
      }
      var free := TakeFree();
      out := out[id := free];
    }
  }

  lemma {:induction false} Behind(palette: seq<string>, n: nat, used: set<string>)
    requires n <= |palette|
    requires forall k :: 0 <= k < n ==> palette[k] == "" || palette[k] in used
    ensures FirstFree(palette, used) == FirstFree(palette[n..], used)
  {
    if n > 0 {
      assert palette[0] == "" || palette[0] in used;
      Behind(palette[1..], n - 1, used);
      assert palette[1..][n - 1..] == palette[n..];
    } else {
      assert palette[0..] == palette;
    }
  }

  method Declared(publishers: seq<Publisher>) returns (ids: seq<string>, hint: map<string, string>)
    ensures ids == Ids(Declarations(publishers)) && hint == Hints(Declarations(publishers))
  {
    ids, hint := [], map[];
    ghost var ds := Declarations(publishers);
    for i := 0 to |publishers|
      invariant ids == Ids(ds[..i]) && hint == Hints(ds[..i])
      invariant forall id :: id in ids <==> id in hint
    {
      assert ds[..i + 1][..i] == ds[..i];
      var p := Trimmed(publishers[i]);
      assert p == ds[i];
      if p.id == "" || p.id in hint {
        continue;
      }
      ids := ids + [p.id];
      hint := hint[p.id := p.color];
    }
    assert ds[..|publishers|] == ds;
  }

  method AssignAll(ids: seq<string>, hint: map<string, string>, palette: seq<string>) returns (out: map<string, string>)
    requires forall id :: id in ids ==> id in hint
    ensures out == Paired(ids, Given(HintsOf(ids, hint), palette))
  {
    var allocator := new Allocator(palette);
    ghost var hs := HintsOf(ids, hint);
    for i := 0 to |ids|
      invariant allocator.Valid() && allocator.palette == palette
      invariant allocator.used == UsedBy(Given(hs[..i], palette))
      invariant allocator.out == Paired(ids[..i], Given(hs[..i], palette))
    {
      ghost var before := Given(hs[..i], palette);
      ghost var color := Choose(hs[i], palette, UsedBy(before));
      assert hs[..i + 1][..i] == hs[..i] && ids[..i + 1][..i] == ids[..i];
      assert Given(hs[..i + 1], palette) == before + [color];
      assert (before + [color])[..i] == before;
      UsedBySnoc(before, color);
      allocator.Assign(ids[i], hint[ids[i]]);
    }
    assert hs[..|ids|] == hs && ids[..|ids|] == ids;
    out := allocator.out;
  }

  lemma UsedBySnoc(given: seq<string>, color: string)
    ensures UsedBy(given + [color]) == UsedBy(given) + {color} - {""}
  {
  }

  /** AssignPublisherColors. */
  method AssignPublisherColors(publishers: seq<Publisher>, palette: seq<string>) returns (out: map<string, string>)
    ensures out == Allocation(publishers, palette)
  {
    var declared, hint := Declared(publishers);
    IdsAreHinted(Declarations(publishers));
    var ids := Sort(declared);
    InMultiset(declared, ids);
    out := AssignAll(ids, hint, palette);
  }

  lemma {:induction false} NoRepeatsMultiset(s: seq<string>)
    ensures NoRepeats(s) <==> forall x :: multiset(s)[x] <= 1
  {
    if s != [] {
      NoRepeatsMultiset(s[1..]);
      assert s == [s[0]] + s[1..];
      assert multiset(s) == multiset{s[0]} + multiset(s[1..]);
      if NoRepeats(s[1..]) && s[0] !in s[1..] {
        forall i, j | 0 <= i < j < |s|
          ensures s[i] != s[j]
        {
          assert s[j] == s[1..][j - 1];
          if i > 0 {
            assert s[i] == s[1..][i - 1];
          }
        }
      }
      if NoRepeats(s) {
        assert forall i :: 0 <= i < |s[1..]| ==> s[1..][i] == s[i + 1];
      } else if forall x :: multiset(s)[x] <= 1 {
        assert multiset(s)[s[0]] <= 1;
        assert s[0] !in multiset(s[1..]);
        forall x
          ensures multiset(s[1..])[x] <= 1
        {
          assert multiset(s)[x] <= 1;
        }
      }
    }
  }

  lemma SortedNoRepeat(s: seq<string>)
    requires NoRepeats(s)
    ensures NoRepeats(Sort(s))
  {
    NoRepeatsMultiset(s);
    NoRepeatsMultiset(Sort(s));
  }

  // ----- what the allocation is

  lemma {:induction false} FirstFreeMeaning(palette: seq<string>, used: set<string>)
    ensures var c := FirstFree(palette, used);
            if c == "" then forall e :: e in palette && e != "" ==> e in used
            else c in palette && c !in used
  {
    if palette != [] && !(palette[0] != "" && palette[0] !in used) {
      FirstFreeMeaning(palette[1..], used);
      assert palette == [palette[0]] + palette[1..];
    }
  }

  lemma {:induction false} GivenAt(hints: seq<string>, palette: seq<string>, k: nat)
    requires k < |hints|
    ensures var given := Given(hints, palette); given[k] == Choose(hints[k], palette, UsedBy(given[..k]))
  {
    var n := |hints| - 1;
    var given, before := Given(hints, palette), Given(hints[..n], palette);
    if k < n {
      GivenAt(hints[..n], palette, k);
      assert given[..k] == before[..k];
    } else {
      assert given[..n] == before;
    }
  }

  /** Colors in hand, publisher by publisher: palette entries without repetition; a hint
      kept exactly when it is in the palette and was not given earlier; nothing given only
      when the palette is exhausted. */
  lemma GivenFair(hints: seq<string>, palette: seq<string>, k: nat)
    requires k < |hints|
    ensures var given := Given(hints, palette);
            && (given[k] != "" ==> given[k] in palette && given[k] !in given[..k])
            && (hints[k] != "" ==> (given[k] == hints[k] <==> hints[k] in palette && hints[k] !in given[..k]))
            && (given[k] == "" ==> forall e :: e in palette && e != "" ==> e in given[..k])
  {
    var given := Given(hints, palette);
    GivenAt(hints, palette, k);
    FirstFreeMeaning(palette, UsedBy(given[..k]));
  }

  lemma {:induction false} PairedAt(ids: seq<string>, given: seq<string>, k: nat)
    requires |ids| == |given| && k < |ids| && NoRepeats(ids)
    ensures ids[k] in Paired(ids, given) && Paired(ids, given)[ids[k]] == given[k]
  {
    var n := |ids| - 1;
    if k < n {
      PairedAt(ids[..n], given[..n], k);
    }
  }

  lemma {:induction false} PairedKeys(ids: seq<string>, given: seq<string>)
    requires |ids| == |given|
    ensures forall id :: id in Paired(ids, given) <==> id in ids
  {
    if ids != [] {
      PairedKeys(ids[..|ids| - 1], given[..|given| - 1]);
    }
  }

  lemma {:induction false} HintsMeaning(ds: seq<Publisher>)
    ensures forall id :: id in Hints(ds) <==> id != "" && exists i :: 0 <= i < |ds| && ds[i].id == id
  {
    if ds != [] {
      var n := |ds| - 1;
      HintsMeaning(ds[..n]);
      assert forall i :: 0 <= i < n ==> ds[..n][i] == ds[i];
    }
  }

  /** Every declared id gets an entry and nothing else does. */
  lemma AllocationKeys(ds: seq<Publisher>, palette: seq<string>)
    ensures forall id :: id in Allocate(ds, palette) <==> id != "" && exists i :: 0 <= i < |ds| && ds[i].id == id
  {
    PairedKeys(Served(ds), Given(HintsOf(Served(ds), Hints(ds)), palette));
    InMultiset(Ids(ds), Served(ds));
    IdsAreHinted(ds);
    HintsMeaning(ds);
  }

  /** Ids in their serving order. */
  ghost predicate InOrder(ids: seq<string>) {
    NoRepeats(ids) && forall i, j :: 0 <= i < j < |ids| ==> Leq(ids[i], ids[j])
  }

  lemma ServedInOrder(ds: seq<Publisher>)
    ensures InOrder(Served(ds))
  {
    IdsAreHinted(ds);
    SortedNoRepeat(Ids(ds));
    SortSorted((x: string) => x, Ids(ds));
  }

  lemma Before(ids: seq<string>, k: nat, e: string)
    requires InOrder(ids) && k < |ids| && e in ids
    ensures e != ids[k] && Leq(e, ids[k]) <==> e in ids[..k]
  {
    var j :| 0 <= j < |ids| && ids[j] == e;
    if j < k {
      assert ids[..k][j] == e;
    } else if j > k {
      LeqTotal(e, ids[k]);
      assert Leq(ids[k], ids[j]);
    }
  }

  /** Two publishers never share a color, and every color is a palette entry. */
  lemma DistinctColors(ds: seq<Publisher>, palette: seq<string>, a: string, b: string)
    requires a in Allocate(ds, palette) && b in Allocate(ds, palette) && a != b
    ensures var out := Allocate(ds, palette);
            out[a] != "" ==> out[a] in palette && out[a] != out[b]
  {
    var ids, hs := Served(ds), HintsOf(Served(ds), Hints(ds));
    var given := Given(hs, palette);
    ServedInOrder(ds);
    PairedKeys(ids, given);
    var i, j :| 0 <= i < |ids| && 0 <= j < |ids| && ids[i] == a && ids[j] == b;
    PairedAt(ids, given, i);
    PairedAt(ids, given, j);
    GivenFair(hs, palette, i);
    GivenFair(hs, palette, j);
    if i < j {
      assert given[..j][i] == given[i];
    } else {
      assert given[..i][j] == given[j];
    }
  }

  /** "Given before the k-th" is "held by an earlier id". */
  lemma HeldEarlier(ids: seq<string>, given: seq<string>, k: nat, color: string)
    requires InOrder(ids) && |ids| == |given| && k < |ids|
    ensures var out := Paired(ids, given);
            color in given[..k] <==> exists e :: e in out && e != ids[k] && Leq(e, ids[k]) && out[e] == color
  {
    var out := Paired(ids, given);
    PairedKeys(ids, given);
    if color in given[..k] {
      var j :| 0 <= j < k && given[j] == color;
      PairedAt(ids, given, j);
      Before(ids, k, ids[j]);
      assert ids[..k][j] == ids[j];
    }
    if e :| e in out && e != ids[k] && Leq(e, ids[k]) && out[e] == color {
      Before(ids, k, e);
      var j :| 0 <= j < k && ids[j] == e;
      PairedAt(ids, given, j);
      assert given[..k][j] == color;
    }
  }

  /** A hint is kept exactly when it is a palette entry that no earlier id holds. */
  lemma HintKept(ds: seq<Publisher>, palette: seq<string>, id: string)
    requires id in Allocate(ds, palette) && id in Hints(ds) && Hints(ds)[id] != ""
    ensures var out, hint := Allocate(ds, palette), Hints(ds)[id];
            out[id] == hint <==> hint in palette && !exists e :: e in out && e != id && Leq(e, id) && out[e] == hint
  {
    var ids, hs := Served(ds), HintsOf(Served(ds), Hints(ds));
    var given, hint := Given(hs, palette), Hints(ds)[id];
    ServedInOrder(ds);
    PairedKeys(ids, given);
    var k :| 0 <= k < |ids| && ids[k] == id;
    PairedAt(ids, given, k);
    GivenFair(hs, palette, k);
    HeldEarlier(ids, given, k, hint);
  }

  /** No color is given only when every palette color is some publisher's. */
  lemma EmptyMeansExhausted(ds: seq<Publisher>, palette: seq<string>, id: string, color: string)
    requires id in Allocate(ds, palette) && Allocate(ds, palette)[id] == ""
    requires color in palette && color != ""
    ensures exists e :: e in Allocate(ds, palette) && Allocate(ds, palette)[e] == color
  {
    var ids, hs := Served(ds), HintsOf(Served(ds), Hints(ds));
    var given := Given(hs, palette);
    ServedInOrder(ds);
    PairedKeys(ids, given);
    var k :| 0 <= k < |ids| && ids[k] == id;
    PairedAt(ids, given, k);
    GivenFair(hs, palette, k);
    var j :| 0 <= j < k && given[j] == color;
    PairedAt(ids, given, j);
  }

  // ----- the order of the publishers does not matter

  /** Publishers that share an id declare the same color. */
  ghost predicate Agreeing(ds: seq<Publisher>) {
    forall d, e :: d in ds && e in ds && d.id == e.id && d.id != "" ==> d.color == e.color
  }

  lemma {:induction false} HintsAreDeclared(ds: seq<Publisher>)
    requires Agreeing(ds)
    ensures forall d :: d in ds && d.id != "" ==> d.id in Hints(ds) && Hints(ds)[d.id] == d.color
    ensures forall id :: id in Hints(ds) ==> id != "" && exists d :: d in ds && d.id == id
  {
    if ds != [] {
      var n := |ds| - 1;
      assert ds == ds[..n] + [ds[n]];
      HintsAreDeclared(ds[..n]);
      HintsMeaning(ds[..n]);
    }
  }

  lemma SameMembersSameSort(a: seq<string>, b: seq<string>)
    requires NoRepeats(a) && NoRepeats(b) && forall x :: x in a <==> x in b
    ensures Sort(a) == Sort(b)
  {
    NoRepeatsMultiset(a);
    NoRepeatsMultiset(b);
    forall x
      ensures multiset(a)[x] == multiset(b)[x]
    {
      assert x in multiset(a) <==> x in a;
      assert x in multiset(b) <==> x in b;
    }
    assert multiset(a) == multiset(b);
    SortForgets(a, b);
  }

  /** Reordering publishers, none of whom contradicts another, changes nothing. */
  lemma AllocationForgetsOrder(a: seq<Publisher>, b: seq<Publisher>, palette: seq<string>)
    requires multiset(a) == multiset(b) && Agreeing(a)
    ensures Allocate(a, palette) == Allocate(b, palette)
  {
    InMultiset(a, b);
    assert Agreeing(b);
    HintsAreDeclared(a);
    HintsAreDeclared(b);
    assert Hints(a) == Hints(b);
    IdsAreHinted(a);
    IdsAreHinted(b);
    SameMembersSameSort(Ids(a), Ids(b));
  }
}
