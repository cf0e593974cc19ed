/** The menu block: the category select built from the items, the three
    filters, the split by image, and the grouping of the filtered items by
    category, sorted by the category's `order`. */
module MenuBlock {
  import opened Common
  import Seqs
  import Sorting

  /** A populated category; `id` is `String(category.id)`. */
  datatype Category = Category(id: string, name: string, order: Option<int>)

  /** An item's `category` field: a populated object, a bare reference (the
      related document was not loaded), or nothing. */
  datatype CategoryRef =
    | Populated(category: Category)
    | Unpopulated(reference: string)
    | NoCategory

  /** A menu item; `kind` is its `type` field. */
  datatype MenuItem = MenuItem(
    id: string,
    category: CategoryRef,
    temperature: Option<string>,
    kind: Option<string>,
    noImage: bool)

  /** The id of an item's category when the category is populated. */
  function PopulatedId(x: MenuItem): Option<string> {
    if x.category.Populated? then Some(x.category.category.id) else None
  }

  // ---------------------------------------------------------------------
  // Category ids in first-seen order

  predicate HasCategory(items: seq<MenuItem>, id: string) {
    exists i :: 0 <= i < |items| && PopulatedId(items[i]) == Some(id)
  }

  /** The first item whose populated category has `id`. */
  function FirstIndex(items: seq<MenuItem>, id: string): (k: nat)
    requires HasCategory(items, id)
    ensures k < |items| && PopulatedId(items[k]) == Some(id)
    ensures forall i :: 0 <= i < k ==> PopulatedId(items[i]) != Some(id)
  {
    if PopulatedId(items[0]) == Some(id) then 0
    else
      assert HasCategory(items[1..], id) by {
        var i :| 0 <= i < |items| && PopulatedId(items[i]) == Some(id);
        assert items[1..][i - 1] == items[i];
      }
      1 + FirstIndex(items[1..], id)
  }

  /** The last item whose populated category has `id`. */
  function LastIndex(items: seq<MenuItem>, id: string): (k: nat)
    requires HasCategory(items, id)
    ensures k < |items| && PopulatedId(items[k]) == Some(id)
    ensures forall i :: k < i < |items| ==> PopulatedId(items[i]) != Some(id)
    decreases |items|
  {
    var n := |items| - 1;
    if PopulatedId(items[n]) == Some(id) then n
    else
      assert HasCategory(items[..n], id) by {
        var i :| 0 <= i < |items| && PopulatedId(items[i]) == Some(id);
        assert items[..n][i] == items[i];
      }
      LastIndex(items[..n], id)
  }

  /** The populated category ids of `items`, each once, in the order they
      first appear: the keys of a `Map` filled item by item. */
  function DistinctIds(items: seq<MenuItem>): seq<string>
    decreases |items|
  {
    if |items| == 0 then []
    else
      var n := |items| - 1;
      var prev := DistinctIds(items[..n]);
      var k := PopulatedId(items[n]);
      if k.Some? && k.value !in prev then prev + [k.value] else prev
  }

  predicate NoDuplicates<T(==)>(s: seq<T>) {
    forall i, j :: 0 <= i < j < |s| ==> s[i] != s[j]
  }

  /** An item present in a prefix has its category counted in the prefix. */
  lemma HasCategorySnoc(items: seq<MenuItem>, id: string)
    requires |items| > 0
    ensures HasCategory(items, id) <==>
      HasCategory(items[..|items| - 1], id) || PopulatedId(items[|items| - 1]) == Some(id)
  {
    var n := |items| - 1;
    if HasCategory(items, id) && PopulatedId(items[n]) != Some(id) {
      var i :| 0 <= i < |items| && PopulatedId(items[i]) == Some(id);
      assert items[..n][i] == items[i];
    }
    if HasCategory(items[..n], id) {
      var i :| 0 <= i < n && PopulatedId(items[..n][i]) == Some(id);
      assert items[i] == items[..n][i];
    }
  }

  /** Appending an item does not move the first occurrence of an id already
      present. */
  lemma FirstIndexSnoc(items: seq<MenuItem>, id: string)
    requires |items| > 0 && HasCategory(items[..|items| - 1], id)
    ensures HasCategory(items, id)
    ensures FirstIndex(items, id) == FirstIndex(items[..|items| - 1], id)
  {
    var pre := items[..|items| - 1];
    HasCategorySnoc(items, id);
    var b := FirstIndex(pre, id);
    assert pre[b] == items[b];
    forall i | 0 <= i < b
      ensures PopulatedId(items[i]) != Some(id)
    {
      assert pre[i] == items[i];
    }
    FirstIndexUnique(items, id, b);
  }

  /** The first position holding a category is the only one with none before it. */
  lemma FirstIndexUnique(items: seq<MenuItem>, id: string, k: nat)
    requires k < |items| && PopulatedId(items[k]) == Some(id)
    requires forall i :: 0 <= i < k ==> PopulatedId(items[i]) != Some(id)
    ensures HasCategory(items, id) && FirstIndex(items, id) == k
  {
    var a := FirstIndex(items, id);
    assert !(a < k);
  }

  /** The distinct ids hold exactly the populated category ids of the
      items. */
  lemma {:induction false} DistinctIdsMembership(items: seq<MenuItem>, id: string)
    ensures id in DistinctIds(items) <==> HasCategory(items, id)
    decreases |items|
  {
    if |items| > 0 {
      var n := |items| - 1;
      DistinctIdsMembership(items[..n], id);
      HasCategorySnoc(items, id);
    }
  }

  /** The distinct ids are ordered by first appearance. */
  lemma {:induction false} DistinctIdsOrdered(items: seq<MenuItem>)
    ensures forall i, j :: 0 <= i < j < |DistinctIds(items)| ==>
      HasCategory(items, DistinctIds(items)[i]) && HasCategory(items, DistinctIds(items)[j])
      && FirstIndex(items, DistinctIds(items)[i]) < FirstIndex(items, DistinctIds(items)[j])
    decreases |items|
  {
    if |items| > 0 {
      var n := |items| - 1;
      var pre := items[..n];
      var prev := DistinctIds(pre);
      DistinctIdsOrdered(pre);
      var r := DistinctIds(items);
      forall i | 0 <= i < |prev|
        ensures HasCategory(pre, prev[i])
        ensures HasCategory(items, prev[i]) && FirstIndex(items, prev[i]) == FirstIndex(pre, prev[i])
      {
        DistinctIdsMembership(pre, prev[i]);
        FirstIndexSnoc(items, prev[i]);
      }
      var k := PopulatedId(items[n]);
      if k.Some? && k.value !in prev {
        assert r == prev + [k.value];
        DistinctIdsMembership(pre, k.value);
        HasCategorySnoc(items, k.value);
        forall i | 0 <= i < n
          ensures PopulatedId(items[i]) != Some(k.value)
        {
          assert pre[i] == items[i];
        }
        forall i, j | 0 <= i < j < |r|
          ensures HasCategory(items, r[i]) && HasCategory(items, r[j])
          ensures FirstIndex(items, r[i]) < FirstIndex(items, r[j])
        {
          if j == |prev| {
            assert FirstIndex(items, r[i]) < n by {
              assert FirstIndex(pre, prev[i]) < |pre|;
            }
          }
        }
      } else {
        assert r == prev;
        forall i, j | 0 <= i < j < |r|
          ensures HasCategory(items, r[i]) && HasCategory(items, r[j])
          ensures FirstIndex(items, r[i]) < FirstIndex(items, r[j])
        {
          assert FirstIndex(pre, prev[i]) < FirstIndex(pre, prev[j]);
        }
      }
    } else {
      assert DistinctIds(items) == [];
    }
  }

  /** The distinct ids are duplicate-free, hold exactly the populated
      category ids of the items, and are ordered by first appearance. */
  lemma DistinctIdsMeaning(items: seq<MenuItem>)
    ensures NoDuplicates(DistinctIds(items))
    ensures forall id :: id in DistinctIds(items) <==> HasCategory(items, id)
    ensures forall i, j :: 0 <= i < j < |DistinctIds(items)| ==>
      HasCategory(items, DistinctIds(items)[i]) && HasCategory(items, DistinctIds(items)[j])
      && FirstIndex(items, DistinctIds(items)[i]) < FirstIndex(items, DistinctIds(items)[j])
  {
    forall id
      ensures id in DistinctIds(items) <==> HasCategory(items, id)
    {
      DistinctIdsMembership(items, id);
    }
    DistinctIdsOrdered(items);
  }

  // ---------------------------------------------------------------------
  // The category select

  /** An option of the category select. */
  datatype CategoryOption = CategoryOption(id: string, name: string)

  function OptionIds(cats: seq<CategoryOption>): (r: seq<string>)
    ensures |r| == |cats| && forall j :: 0 <= j < |cats| ==> r[j] == cats[j].id
  {
    seq(|cats|, j requires 0 <= j < |cats| => cats[j].id)
  }

  /** `Map.prototype.set` on an insertion-ordered map: an existing key keeps
      its position and takes the new value; a new key goes last. */
  function SetCategory(cats: seq<CategoryOption>, id: string, name: string): (r: seq<CategoryOption>)
    ensures |r| == |cats| + (if id in OptionIds(cats) then 0 else 1)
    ensures forall j :: 0 <= j < |cats| ==>
      r[j] == if cats[j].id == id then CategoryOption(id, name) else cats[j]
    ensures id !in OptionIds(cats) ==> r[|cats|] == CategoryOption(id, name)
  {
    if id in OptionIds(cats) then
      seq(|cats|, j requires 0 <= j < |cats| => if cats[j].id == id then CategoryOption(id, name) else cats[j])
    else cats + [CategoryOption(id, name)]
  }

  /** The `categories` memo: one option per populated category, filled item
      by item with `Map.set`. */
  function CategoryOptions(items: seq<MenuItem>): seq<CategoryOption>
    decreases |items|
  {
    if |items| == 0 then []
    else
      var n := |items| - 1;
      var prev := CategoryOptions(items[..n]);
      var x := items[n];
      if x.category.Populated? then SetCategory(prev, x.category.category.id, x.category.category.name)
      else prev
  }

  /** The name a category was last seen with. */
  function LastName(items: seq<MenuItem>, id: string): string
    requires HasCategory(items, id)
  {
    items[LastIndex(items, id)].category.category.name
  }

  lemma LastIndexSnoc(items: seq<MenuItem>, id: string)
    requires |items| > 0 && HasCategory(items[..|items| - 1], id)
    requires PopulatedId(items[|items| - 1]) != Some(id)
    ensures HasCategory(items, id)
    ensures LastIndex(items, id) == LastIndex(items[..|items| - 1], id)
  {
    HasCategorySnoc(items, id);
  }

  /** The select offers the distinct category ids, in first-seen order. */
  lemma {:induction false} CategoryOptionIds(items: seq<MenuItem>)
    ensures OptionIds(CategoryOptions(items)) == DistinctIds(items)
    decreases |items|
  {
    if |items| > 0 {
      var n := |items| - 1;
      CategoryOptionIds(items[..n]);
      var prev := CategoryOptions(items[..n]);
      var r := CategoryOptions(items);
      if items[n].category.Populated? {
        var id := items[n].category.category.id;
        if id in OptionIds(prev) {
          assert OptionIds(r) == OptionIds(prev);
        } else {
          assert OptionIds(r) == OptionIds(prev) + [id];
        }
      }
    }
  }

  /** Each option is shown under the name of the LAST item seen with its id. */
  lemma {:induction false} CategoryOptionName(items: seq<MenuItem>, j: nat)
    requires j < |CategoryOptions(items)|
    ensures HasCategory(items, CategoryOptions(items)[j].id)
    ensures CategoryOptions(items)[j].name == LastName(items, CategoryOptions(items)[j].id)
    decreases |items|
  {
    var n := |items| - 1;
    var prev := CategoryOptions(items[..n]);
    var r := CategoryOptions(items);
    var x := items[n];
    if x.category.Populated? && r[j].id == x.category.category.id {
      assert PopulatedId(x) == Some(r[j].id);
      HasCategorySnoc(items, r[j].id);
    } else {
      assert j < |prev| && r[j] == prev[j];
      CategoryOptionName(items[..n], j);
      LastIndexSnoc(items, r[j].id);
    }
  }

  // ---------------------------------------------------------------------
  // Filters

  const All := "all"

  /** The three select values. */
  datatype Filters = Filters(category: string, temperature: string, kind: string)

  /** The predicate passed to `menuItems.filter`. Only a populated category
      with a different id fails the category filter; temperature and type
      must equal the selection exactly. */
  predicate Keep(f: Filters, x: MenuItem) {
    && (f.category == All || !x.category.Populated? || x.category.category.id == f.category)
    && (f.temperature == All || x.temperature == Some(f.temperature))
    && (f.kind == All || x.kind == Some(f.kind))
  }

  function FilteredItems(items: seq<MenuItem>, f: Filters): (r: seq<MenuItem>)
    ensures |r| <= |items|
    ensures forall i :: 0 <= i < |r| ==> Keep(f, r[i])
  {
    Seqs.Filter(items, x => Keep(f, x))
  }

  /** The filtered items are the menu items the filter keeps, in menu order. */
  lemma FilteredItemsMeaning(items: seq<MenuItem>, f: Filters, x: MenuItem)
    ensures x in FilteredItems(items, f) <==> x in items && Keep(f, x)
    ensures Seqs.IsSubsequence(FilteredItems(items, f), items)
  {
    Seqs.FilterMembership(items, y => Keep(f, y), x);
    Seqs.FilterIsSubsequence(items, y => Keep(f, y));
  }

  /** The filter as an item sees it: a specific temperature or type keeps an
      item exactly when the item's field equals it, and an item whose
      category is not populated passes every category filter. */
  lemma KeepCases(f: Filters, x: MenuItem)
    ensures f.temperature != All && x.temperature != Some(f.temperature) ==> !Keep(f, x)
    ensures f.kind != All && x.kind != Some(f.kind) ==> !Keep(f, x)
    ensures !x.category.Populated? ==>
      (Keep(f, x) <==> Keep(Filters(All, f.temperature, f.kind), x))
    ensures x.category.Populated? ==>
      (Keep(f, x) <==>
        Keep(Filters(All, f.temperature, f.kind), x) && (f.category == All || f.category == x.category.category.id))
  {
  }

  /** The reset button sets every select to "all". */
  const Reset := Filters(All, All, All)

  /** The "active filters" row is shown when some select is not "all". */
  predicate HasActiveFilter(f: Filters) {
    f.category != All || f.temperature != All || f.kind != All
  }

  /** A filter is active exactly when the selection differs from the reset
      state, and the reset state shows the whole menu. */
  lemma ResetShowsEverything(items: seq<MenuItem>, f: Filters)
    ensures HasActiveFilter(f) <==> f != Reset
    ensures FilteredItems(items, Reset) == items
  {
    Seqs.FilterKeepsAll(items, x => Keep(Reset, x));
  }

  // ---------------------------------------------------------------------
  // Split by image

  predicate HasImage(x: MenuItem) {
    !x.noImage
  }

  predicate IsCompact(x: MenuItem) {
    x.noImage
  }

  function WithImages(items: seq<MenuItem>): seq<MenuItem> {
    Seqs.Filter(items, HasImage)
  }

  function WithoutImages(items: seq<MenuItem>): seq<MenuItem> {
    Seqs.Filter(items, IsCompact)
  }

  /** The two lists split the filtered items between them, each in order. */
  lemma ImageSplitPartitions(items: seq<MenuItem>)
    ensures |WithImages(items)| + |WithoutImages(items)| == |items|
    ensures multiset(WithImages(items)) + multiset(WithoutImages(items)) == multiset(items)
    ensures forall i :: 0 <= i < |WithImages(items)| ==> !WithImages(items)[i].noImage
    ensures forall i :: 0 <= i < |WithoutImages(items)| ==> WithoutImages(items)[i].noImage
    ensures Seqs.IsSubsequence(WithImages(items), items)
    ensures Seqs.IsSubsequence(WithoutImages(items), items)
  {
    Seqs.FilterPartition(items, HasImage, IsCompact);
    Seqs.FilterIsSubsequence(items, HasImage);
    Seqs.FilterIsSubsequence(items, IsCompact);
  }

  // ---------------------------------------------------------------------
  // Grouping by category

  /** A group: the category's id, the name and order it was created with, and
      its items with and without images. */
  datatype Group = Group(
    id: string,
    categoryName: string,
    order: int,
    withImages: seq<MenuItem>,
    withoutImages: seq<MenuItem>)

  function GroupIds(gs: seq<Group>): (r: seq<string>)
    ensures |r| == |gs| && forall j :: 0 <= j < |gs| ==> r[j] == gs[j].id
  {
    seq(|gs|, j requires 0 <= j < |gs| => gs[j].id)
  }

  /** `category.order || 0`. */
  function OrderOf(c: Category): int {
    c.order.GetOr(0)
  }

  /** Puts the item in its list of the group `c.id`. */
  function AddToGroup(g: Group, x: MenuItem): Group {
    if x.noImage then g.(withoutImages := g.withoutImages + [x])
    else g.(withImages := g.withImages + [x])
  }

  /** One step of the `forEach`: an item with a populated category goes into
      the group of its id, which is created (from this item's name and
      order) the first time the id is seen. */
  function PlaceItem(gs: seq<Group>, x: MenuItem): (r: seq<Group>)
    requires x.category.Populated?
    ensures |r| == |gs| + (if x.category.category.id in GroupIds(gs) then 0 else 1)
    ensures forall j :: 0 <= j < |gs| ==>
      r[j] == if gs[j].id == x.category.category.id then AddToGroup(gs[j], x) else gs[j]
    ensures x.category.category.id !in GroupIds(gs) ==>
      r[|gs|] == AddToGroup(Group(x.category.category.id, x.category.category.name,
                                  OrderOf(x.category.category), [], []), x)
  {
    var c := x.category.category;
    if c.id in GroupIds(gs) then
      seq(|gs|, j requires 0 <= j < |gs| => if gs[j].id == c.id then AddToGroup(gs[j], x) else gs[j])
    else gs + [AddToGroup(Group(c.id, c.name, OrderOf(c), [], []), x)]
  }

  /** The groups in creation order, before sorting. */
  function GroupsOf(items: seq<MenuItem>): seq<Group>
    decreases |items|
  {
    if |items| == 0 then []
    else
      var n := |items| - 1;
      var prev := GroupsOf(items[..n]);
      if items[n].category.Populated? then PlaceItem(prev, items[n]) else prev
  }

  /** The members of group `id` with an image. */
  function ImageMember(id: string): MenuItem -> bool {
    x => PopulatedId(x) == Some(id) && !x.noImage
  }

  /** The members of group `id` without an image. */
  function CompactMember(id: string): MenuItem -> bool {
    x => PopulatedId(x) == Some(id) && x.noImage
  }

  /** The category of the first item with the id. */
  function FirstCategory(items: seq<MenuItem>, id: string): Category
    requires HasCategory(items, id)
  {
    items[FirstIndex(items, id)].category.category
  }

  lemma FilterSnoc<T>(s: seq<T>, p: T -> bool)
    requires |s| > 0
    ensures Seqs.Filter(s, p) ==
      Seqs.Filter(s[..|s| - 1], p) + (if p(s[|s| - 1]) then [s[|s| - 1]] else [])
  {
    var n := |s| - 1;
    assert s == s[..n] + [s[n]];
    Seqs.FilterConcat(s[..n], [s[n]], p);
    assert [s[n]][1..] == [];
  }

  /** The group ids are the distinct category ids, in first-seen order. */
  lemma {:induction false} GroupIdsAreDistinctIds(items: seq<MenuItem>)
    ensures GroupIds(GroupsOf(items)) == DistinctIds(items)
    decreases |items|
  {
    if |items| > 0 {
      var n := |items| - 1;
      GroupIdsAreDistinctIds(items[..n]);
      var prev := GroupsOf(items[..n]);
      var r := GroupsOf(items);
      if items[n].category.Populated? {
        var id := items[n].category.category.id;
        if id in GroupIds(prev) {
          assert GroupIds(r) == GroupIds(prev);
        } else {
          assert GroupIds(r) == GroupIds(prev) + [id];
        }
      }
    }
  }

  /** Each group carries the name and order (read as `order || 0`) of the
      first item with its id. */
  lemma {:induction false} GroupHeading(items: seq<MenuItem>, j: nat)
    requires j < |GroupsOf(items)|
    ensures HasCategory(items, GroupsOf(items)[j].id)
    ensures GroupsOf(items)[j].categoryName == FirstCategory(items, GroupsOf(items)[j].id).name
    ensures GroupsOf(items)[j].order == OrderOf(FirstCategory(items, GroupsOf(items)[j].id))
    decreases |items|
  {
    var n := |items| - 1;
    var pre := items[..n];
    var prev := GroupsOf(pre);
    var r := GroupsOf(items);
    var id := r[j].id;
    if j < |prev| {
      GroupHeading(pre, j);
      FirstIndexSnoc(items, id);
    } else {
      NewGroupIsNewId(items);
      HasCategorySnoc(items, id);
      forall i | 0 <= i < n
        ensures PopulatedId(items[i]) != Some(id)
      {
        assert pre[i] == items[i];
      }
    }
  }

  /** A group created by the last item has an id no earlier item carries. */
  lemma NewGroupIsNewId(items: seq<MenuItem>)
    requires |items| > 0
    requires |GroupsOf(items)| > |GroupsOf(items[..|items| - 1])|
    ensures items[|items| - 1].category.Populated?
    ensures GroupsOf(items)[|GroupsOf(items[..|items| - 1])|].id == items[|items| - 1].category.category.id
    ensures !HasCategory(items[..|items| - 1], items[|items| - 1].category.category.id)
  {
    var n := |items| - 1;
    var id := items[n].category.category.id;
    GroupIdsAreDistinctIds(items[..n]);
    DistinctIdsMeaning(items[..n]);
  }

  /** Each group's two lists are exactly the items with its category id, with
      and without an image, in their original order. */
  lemma {:induction false} GroupMembers(items: seq<MenuItem>, j: nat)
    requires j < |GroupsOf(items)|
    ensures GroupsOf(items)[j].withImages == Seqs.Filter(items, ImageMember(GroupsOf(items)[j].id))
    ensures GroupsOf(items)[j].withoutImages == Seqs.Filter(items, CompactMember(GroupsOf(items)[j].id))
    decreases |items|
  {
    var n := |items| - 1;
    var pre := items[..n];
    var prev := GroupsOf(pre);
    var r := GroupsOf(items);
    var id := r[j].id;
    FilterSnoc(items, ImageMember(id));
    FilterSnoc(items, CompactMember(id));
    if j < |prev| {
      GroupMembers(pre, j);
    } else {
      NewGroupIsNewId(items);
      NoMembersWithoutId(pre, id);
    }
  }

  lemma NoMembersWithoutId(items: seq<MenuItem>, id: string)
    requires !HasCategory(items, id)
    ensures Seqs.Filter(items, ImageMember(id)) == []
    ensures Seqs.Filter(items, CompactMember(id)) == []
  {
    var a := Seqs.Filter(items, ImageMember(id));
    var b := Seqs.Filter(items, CompactMember(id));
    if a != [] {
      Seqs.FilterMembership(items, ImageMember(id), a[0]);
    }
    if b != [] {
      Seqs.FilterMembership(items, CompactMember(id), b[0]);
    }
  }

  /** An item of the list with a populated category lies in the group of its
      category id and in no other group, in the list that matches its
      `noImage`. */
  lemma ItemInExactlyOneGroup(items: seq<MenuItem>, i: nat)
    requires i < |items| && items[i].category.Populated?
    ensures
      var gs := GroupsOf(items);
      var k := items[i].category.category.id;
      && (exists j :: 0 <= j < |gs| && gs[j].id == k)
      && forall j :: 0 <= j < |gs| ==>
        (items[i] in gs[j].withImages <==> gs[j].id == k && !items[i].noImage)
        && (items[i] in gs[j].withoutImages <==> gs[j].id == k && items[i].noImage)
  {
    var gs := GroupsOf(items);
    var x := items[i];
    var k := x.category.category.id;
    GroupIdsAreDistinctIds(items);
    DistinctIdsMeaning(items);
    assert PopulatedId(x) == Some(k);
    assert k in GroupIds(gs);
    forall j | 0 <= j < |gs|
      ensures (x in gs[j].withImages <==> gs[j].id == k && !x.noImage)
      ensures (x in gs[j].withoutImages <==> gs[j].id == k && x.noImage)
    {
      GroupMembers(items, j);
      Seqs.FilterMembership(items, ImageMember(gs[j].id), x);
      Seqs.FilterMembership(items, CompactMember(gs[j].id), x);
    }
  }

  // ---------------------------------------------------------------------
  // Sorting the groups by order

  function GroupOrder(g: Group): int {
    g.order
  }

  /** `groups.sort((a, b) => a.order - b.order)`. */
  function SortByOrder(gs: seq<Group>): (r: seq<Group>)
    ensures multiset(r) == multiset(gs)
  {
    Sorting.SortBy(gs, GroupOrder)
  }

  /** The groups come out ascending by order, and groups of equal order keep
      the order in which they were created. */
  lemma SortByOrderMeaning(gs: seq<Group>, k: int)
    ensures Sorting.SortedBy(SortByOrder(gs), GroupOrder)
    ensures Seqs.Filter(SortByOrder(gs), Sorting.KeyIs(GroupOrder, k)) ==
      Seqs.Filter(gs, Sorting.KeyIs(GroupOrder, k))
  {
    Sorting.SortByMeaning(gs, GroupOrder, k);
  }

  /** `groupedByCategory`: the groups of the filtered items, sorted by order. */
  function GroupedByCategory(items: seq<MenuItem>, f: Filters): (r: seq<Group>)
    ensures multiset(r) == multiset(GroupsOf(FilteredItems(items, f)))
  {
    SortByOrder(GroupsOf(FilteredItems(items, f)))
  }

  /** The "no items match" message shows exactly when no filtered item has a
      populated category. */
  lemma NoGroupsMessage(items: seq<MenuItem>, f: Filters)
    ensures |GroupedByCategory(items, f)| == 0 <==>
      forall i :: 0 <= i < |FilteredItems(items, f)| ==> !FilteredItems(items, f)[i].category.Populated?
  {
    var fs := FilteredItems(items, f);
    var gs := GroupsOf(fs);
    var r := GroupedByCategory(items, f);
    assert |r| == |gs| by {
      assert |multiset(r)| == |multiset(gs)|;
    }
    GroupIdsAreDistinctIds(fs);
    DistinctIdsMeaning(fs);
    if exists i :: 0 <= i < |fs| && fs[i].category.Populated? {
      var i :| 0 <= i < |fs| && fs[i].category.Populated?;
      assert PopulatedId(fs[i]) == Some(fs[i].category.category.id);
      assert fs[i].category.category.id in DistinctIds(fs);
    }
    if |gs| > 0 {
      assert gs[0].id in GroupIds(gs);
      var i :| 0 <= i < |fs| && PopulatedId(fs[i]) == Some(gs[0].id);
    }
  }
}
