/** Exactly which color every publisher is given, in terms of the declarations, the palette and
    the colors of the ids before it. */
module PublisherColorLaws {
  import opened Strings
  import opened Sorting
  import opened PublisherColors

  /** Declaration `i` is the first of its id. */
  predicate DeclaredFirst(ds: seq<Publisher>, id: string, i: nat) {
    i < |ds| && ds[i].id == id && forall j :: 0 <= j < i ==> ds[j].id != id
  }

  /** An id's hint is the one it declares first. */
  lemma {:induction false} HintIsFirst(ds: seq<Publisher>, id: string, i: nat)
    requires id != "" && DeclaredFirst(ds, id, i)
    ensures id in Hints(ds) && Hints(ds)[id] == ds[i].color
  {
    var n := |ds| - 1;
    if i < n {
      HintIsFirst(ds[..n], id, i);
    } else {
      HintsMeaning(ds[..n]);
    }
  }

  /** A color held by an id that is served earlier, in ascending order of ids. */
  predicate HeldBefore(out: map<string, string>, id: string, color: string) {
    exists e :: e in out && e != id && Leq(e, id) && out[e] == color
  }

  /** Palette entry `k` is the first that is a color no earlier id holds. */
  predicate FirstOpen(palette: seq<string>, out: map<string, string>, id: string, k: nat) {
    && k < |palette| && palette[k] != "" && !HeldBefore(out, id, palette[k])
    && forall j :: 0 <= j < k ==> palette[j] == "" || HeldBefore(out, id, palette[j])
  }

  /** The hint is a palette color that no earlier id holds. */
  predicate Kept(out: map<string, string>, palette: seq<string>, id: string, hint: string) {
    hint != "" && hint in palette && !HeldBefore(out, id, hint)
  }

  /** The id has its hint when it may keep it, otherwise the first palette color that no earlier
      id holds, and none when there is no such color. */
  ghost predicate AssignedSo(out: map<string, string>, palette: seq<string>, id: string, hint: string) {
    && id in out
    && if Kept(out, palette, id, hint) then out[id] == hint
       else
         && (forall k: nat :: FirstOpen(palette, out, id, k) ==> out[id] == palette[k])
         && ((forall k: nat :: !FirstOpen(palette, out, id, k)) ==> out[id] == "")
  }

  /** The first free entry by its position. */
  lemma {:induction false} FirstFreeAt(palette: seq<string>, used: set<string>) returns (k: nat)
    ensures k <= |palette| && forall j :: 0 <= j < k ==> palette[j] == "" || palette[j] in used
    ensures k < |palette| ==> palette[k] != "" && palette[k] !in used && FirstFree(palette, used) == palette[k]
    ensures k == |palette| ==> FirstFree(palette, used) == ""
  {
    if palette == [] || (palette[0] != "" && palette[0] !in used) {
      k := 0;
    } else {
      var m := FirstFreeAt(palette[1..], used);
      k := m + 1;
      forall j | 0 <= j < k
        ensures palette[j] == "" || palette[j] in used
      {
        if j > 0 {
          assert palette[1..][j - 1] == palette[j];
        }
      }
    }
  }

  /** What the served id `k` is given, with the earlier colors seen through the allocation. */
  lemma ServedColor(ds: seq<Publisher>, palette: seq<string>, id: string) returns (used: set<string>)
    requires id in Allocate(ds, palette) && id in Hints(ds)
    ensures Allocate(ds, palette)[id] == Choose(Hints(ds)[id], palette, used)
    ensures forall c: string :: c != "" ==> (c in used <==> HeldBefore(Allocate(ds, palette), id, c))
  {
    var ids, hs := Served(ds), HintsOf(Served(ds), Hints(ds));
    var given := Given(hs, palette);
    ServedInOrder(ds);
    PairedKeys(ids, given);
    var k :| 0 <= k < |ids| && ids[k] == id;
    PairedAt(ids, given, k);
    GivenAt(hs, palette, k);
    used := UsedBy(given[..k]);
    forall c: string | c != ""
      ensures c in used <==> HeldBefore(Allocate(ds, palette), id, c)
    {
      HeldEarlier(ids, given, k, c);
    }
  }

  /** A publisher keeps the color it declares first when that is in the palette and no earlier id
      holds it; otherwise it is given the first palette color that no earlier id holds, and none
      when there is no such color. */
  lemma AllocatedExactly(ds: seq<Publisher>, palette: seq<string>, id: string, i: nat)
    requires id != "" && DeclaredFirst(ds, id, i)
    ensures AssignedSo(Allocate(ds, palette), palette, id, ds[i].color)
  {
    AllocationKeys(ds, palette);
    HintIsFirst(ds, id, i);
    var out := Allocate(ds, palette);
    var used := ServedColor(ds, palette, id);
    var m := FirstFreeAt(palette, used);
    forall k: nat
      ensures FirstOpen(palette, out, id, k) <==> k == m < |palette|
    {
      OpenExactly(palette, out, id, used, m, k);
    }
    assert FirstOpen(palette, out, id, m) <==> m < |palette|;
  }

  lemma OpenExactly(palette: seq<string>, out: map<string, string>, id: string, used: set<string>, m: nat, k: nat)
    requires forall c: string :: c != "" ==> (c in used <==> HeldBefore(out, id, c))
    requires m <= |palette| && (m < |palette| ==> palette[m] != "" && palette[m] !in used)
    requires forall j :: 0 <= j < m ==> palette[j] == "" || palette[j] in used
    ensures FirstOpen(palette, out, id, k) <==> k == m < |palette|
  {
  }

  // ----- on publishers as they are given

  /** Publisher `i` is the first whose id is this, but for white space. */
  predicate NamedFirst(ps: seq<Publisher>, id: string, i: nat) {
    i < |ps| && TrimSpace(ps[i].id) == id && forall j :: 0 <= j < i ==> TrimSpace(ps[j].id) != id
  }

  /** AssignPublisherColors gives an entry to every trimmed id that is not blank, and to nothing
      else: the trimmed color of its first publisher when that is in the palette and no earlier id
      holds it, otherwise the first palette color that no earlier id holds, or none. */
  lemma AssignedExactly(ps: seq<Publisher>, palette: seq<string>, id: string)
    ensures id in Allocation(ps, palette) <==> id != "" && exists i :: NamedFirst(ps, id, i)
    ensures forall i: nat :: id != "" && NamedFirst(ps, id, i) ==>
              AssignedSo(Allocation(ps, palette), palette, id, TrimSpace(ps[i].color))
  {
    var ds := Declarations(ps);
    AllocationKeys(ds, palette);
    forall i: nat
      ensures NamedFirst(ps, id, i) <==> DeclaredFirst(ds, id, i)
    {
    }
    if i :| 0 <= i < |ds| && ds[i].id == id {
      var k := FirstOf(ds, id, i);
      assert NamedFirst(ps, id, k);
    }
    forall i: nat | id != "" && NamedFirst(ps, id, i)
      ensures AssignedSo(Allocate(ds, palette), palette, id, ds[i].color)
    {
      AllocatedExactly(ds, palette, id, i);
    }
  }

  lemma {:induction false} FirstOf(ds: seq<Publisher>, id: string, i: nat) returns (k: nat)
    requires i < |ds| && ds[i].id == id
    ensures DeclaredFirst(ds, id, k)
  {
    if j: nat :| j < i && ds[j].id == id {
      k := FirstOf(ds, id, j);
    } else {
      k := i;
    }
  }
}
