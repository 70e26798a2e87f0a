/** The menu that lists the secrets: one-true-pairing/src/notifier/mod.rs:188-321 and the index lookup
    of its click handler. One snapshot of the map from names to paths is a sequence in key order. */
module Menu {
  import opened Numbers
  import opened Outcomes

  const MENU_UPDATE_ID: i32 := 0x7FFF_FFFD
  const MENU_SEPARATOR_ID: i32 := 0x7FFF_FFFE
  const MENU_EXIT_ID: i32 := 0x7FFF_FFFF

  const FIXED_LABELS := {"_Update menu", "E_xit"}

  datatype Secret = Secret(name: string, path: string)

  type Properties = map<string, string>

  datatype Layout = Layout(id: i32, properties: Properties, children: seq<Layout>)

  predicate DistinctNames(secrets: seq<Secret>) {
    forall i, j :: 0 <= i < j < |secrets| ==> secrets[i].name != secrets[j].name
  }

  // ----- the layout -----

  predicate Want(names: seq<string>, key: string) {
    names == [] || key in names
  }

  /** The properties of an entry, as far as they are wanted. */
  function EntryProperties(names: seq<string>, kind: string, caption: Option<string>): Properties {
    (if Want(names, "type") then map["type" := kind] else map[])
    + (if caption.Some? && Want(names, "label") then map["label" := caption.value] else map[])
  }

  function SecretEntry(names: seq<string>, index: nat, secret: Secret): Layout
    requires index < 0x7FFF_FFFF
  {
    Layout(index + 1, EntryProperties(names, "standard", Some(secret.name)), [])
  }

  function FixedEntries(names: seq<string>): seq<Layout> {
    [Layout(MENU_SEPARATOR_ID, EntryProperties(names, "separator", None), []),
     Layout(MENU_UPDATE_ID, EntryProperties(names, "standard", Some("_Update menu")), []),
     Layout(MENU_EXIT_ID, EntryProperties(names, "standard", Some("E_xit")), [])]
  }

  function SecretEntries(names: seq<string>, secrets: seq<Secret>): (es: seq<Layout>)
    requires |secrets| <= 0x7FFF_FFFF
    ensures |es| == |secrets|
  {
    seq(|secrets|, i requires 0 <= i < |secrets| => SecretEntry(names, i, secrets[i]))
  }

  function LayoutOf(names: seq<string>, secrets: seq<Secret>): Layout
    requires |secrets| <= 0x7FFF_FFFF
  {
    Layout(0, map["children-display" := "submenu"], SecretEntries(names, secrets) + FixedEntries(names))
  }

  method ObtainLayoutStructure(names: seq<string>, secrets: seq<Secret>) returns (layout: Layout)
    requires |secrets| <= 0x7FFF_FFFF // more would not have IDs
    ensures layout == LayoutOf(names, secrets)
  {
    var menuEntries: seq<Layout> := [];
    for i := 0 to |secrets|
      invariant menuEntries == SecretEntries(names, secrets)[..i]
    {
      var props: Properties := map[];
      if Want(names, "type") {
        props := props["type" := "standard"];
      }
      if Want(names, "label") {
        props := props["label" := secrets[i].name];
      }
      assert props == EntryProperties(names, "standard", Some(secrets[i].name));
      menuEntries := menuEntries + [Layout(i + 1, props, [])];
    }
    menuEntries := menuEntries + [Layout(MENU_SEPARATOR_ID, EntryProperties(names, "separator", None), [])];
    menuEntries := menuEntries + [Layout(MENU_UPDATE_ID, EntryProperties(names, "standard", Some("_Update menu")), [])];
    menuEntries := menuEntries + [Layout(MENU_EXIT_ID, EntryProperties(names, "standard", Some("E_xit")), [])];
    assert menuEntries == SecretEntries(names, secrets) + FixedEntries(names);
    layout := Layout(0, map["children-display" := "submenu"], menuEntries);
  }

  // ----- flattening -----

  /** A layout and everything below it, parents first. */
  function Preorder(l: Layout): seq<Layout> {
    [l] + PreorderAll(l.children)
  }

  function PreorderAll(ls: seq<Layout>): seq<Layout> {
    if |ls| == 0 then [] else Preorder(ls[0]) + PreorderAll(ls[1..])
  }

  method FlattenEntries(top: Layout, collection: seq<Layout>) returns (flat: seq<Layout>)
    ensures flat == collection + Preorder(top)
    decreases top
  {
    flat := collection + [top];
    for i := 0 to |top.children|
      invariant flat + PreorderAll(top.children[i..]) == collection + Preorder(top)
    {
      assert top.children[i..][1..] == top.children[i + 1..];
      flat := FlattenEntries(top.children[i], flat);
    }
  }

  function Restrict(properties: Properties, names: seq<string>): Properties {
    map k | k in properties && Want(names, k) :: properties[k]
  }

  /** The entries with a requested ID, in order, with the requested properties. */
  function Requested(entries: seq<Layout>, ids: seq<i32>, names: seq<string>): seq<(i32, Properties)> {
    if |entries| == 0 then []
    else
      (if entries[0].id in ids then [(entries[0].id, Restrict(entries[0].properties, names))] else [])
      + Requested(entries[1..], ids, names)
  }

  method ObtainGroupProperties(ids: seq<i32>, names: seq<string>, secrets: seq<Secret>)
    returns (ret: seq<(i32, Properties)>)
    requires |secrets| <= 0x7FFF_FFFF
    ensures ret == Requested(Preorder(LayoutOf(names, secrets)), ids, names)
  {
    hide LayoutOf, Restrict, Preorder;
    var layout := ObtainLayoutStructure(names, secrets);
    var entries := FlattenEntries(layout, []);
    assert entries == Preorder(layout);
    ret := [];
    for i := 0 to |entries|
      invariant ret + Requested(entries[i..], ids, names) == Requested(entries, ids, names)
    {
      assert entries[i..][1..] == entries[i + 1..];
      if entries[i].id in ids {
        ret := ret + [(entries[i].id, Restrict(entries[i].properties, names))];
      }
    }
  }

  // ----- clicking -----

  datatype Action = Ignore | Update | Exit | Select(path: string) | Overflow

  /** What a click on a menu item does. The lowest ID has no predecessor: the subtraction overflows. */
  function Clicked(id: i32, secrets: seq<Secret>): Action {
    if id == MENU_SEPARATOR_ID then Ignore
    else if id == MENU_EXIT_ID then Exit
    else if id == MENU_UPDATE_ID then Update
    else if id == -0x8000_0000 then Overflow
    else
      var index := id - 1;
      if index < 0 || index >= |secrets| then Ignore else Select(secrets[index].path)
  }

  /** The path stored under a name. */
  predicate Stored(secrets: seq<Secret>, name: string, path: string) {
    Secret(name, path) in secrets
  }

  /** Clicking the item of secret i selects its path exactly if its ID is not one of the reserved ones. */
  lemma ClickSelectsIff(names: seq<string>, secrets: seq<Secret>, i: nat)
    requires i < |secrets| <= 0x7FFF_FFFF
    ensures var item := LayoutOf(names, secrets).children[i];
            Clicked(item.id, secrets) == Select(secrets[i].path) <==> i + 1 < MENU_UPDATE_ID
  {
  }

  /** A name stands for one path. */
  lemma StoredOnce(secrets: seq<Secret>, name: string, path: string, other: string)
    requires DistinctNames(secrets) && Stored(secrets, name, path) && Stored(secrets, name, other)
    ensures path == other
  {
    var j :| 0 <= j < |secrets| && secrets[j] == Secret(name, path);
    var k :| 0 <= k < |secrets| && secrets[k] == Secret(name, other);
    assert secrets[j].name == secrets[k].name;
  }

  /** The item shows this label. */
  predicate Shows(item: Layout, caption: string) {
    "label" in item.properties && item.properties["label"] == caption
  }

  /** Clicking the item selects the path stored under this name. */
  ghost predicate SelectsPathOf(item: Layout, secrets: seq<Secret>, name: string) {
    exists path :: Clicked(item.id, secrets) == Select(path) && Stored(secrets, name, path)
  }

  /** Whatever item of the menu shows a label, clicking it selects the path stored under that label
      exactly if it is not one of the fixed items, which show labels of their own. */
  lemma LabelSelectsItsPathIff(names: seq<string>, secrets: seq<Secret>, item: Layout, caption: string)
    requires |secrets| < MENU_UPDATE_ID && DistinctNames(secrets)
    requires item in LayoutOf(names, secrets).children && Shows(item, caption)
    ensures SelectsPathOf(item, secrets, caption) <==> item.id < MENU_UPDATE_ID
    ensures caption !in FIXED_LABELS ==> SelectsPathOf(item, secrets, caption)
  {
    var items := LayoutOf(names, secrets).children;
    var i :| 0 <= i < |items| && items[i] == item;
    hide DistinctNames;
    if i < |secrets| {
      assert secrets[i] == Secret(caption, secrets[i].path);
      assert Clicked(item.id, secrets) == Select(secrets[i].path);
    }
  }

  /** Whichever item shows the name of a secret, clicking it selects the path of that secret. */
  ghost predicate LabelsDecide(items: seq<Layout>, secrets: seq<Secret>) {
    forall item, i | item in items && 0 <= i < |secrets| && Shows(item, secrets[i].name) ::
      Clicked(item.id, secrets) == Select(secrets[i].path)
  }

  /** Labels decide exactly if no secret bears the name of a fixed item: then every item that shows the
      name of a secret selects its path. */
  lemma NamesDecideIff(names: seq<string>, secrets: seq<Secret>)
    requires |secrets| < MENU_UPDATE_ID && DistinctNames(secrets) && Want(names, "label")
    ensures LabelsDecide(LayoutOf(names, secrets).children, secrets)
       <==> forall i :: 0 <= i < |secrets| ==> secrets[i].name !in FIXED_LABELS
  {
    var items, n := LayoutOf(names, secrets).children, |secrets|;
    forall item, i | item in items && 0 <= i < n && Shows(item, secrets[i].name)
      ensures secrets[i].name in FIXED_LABELS || Clicked(item.id, secrets) == Select(secrets[i].path)
    {
      var caption := secrets[i].name;
      LabelSelectsItsPathIff(names, secrets, item, caption);
      if SelectsPathOf(item, secrets, caption) {
        var path :| Clicked(item.id, secrets) == Select(path) && Stored(secrets, caption, path);
        assert Stored(secrets, caption, secrets[i].path);
        StoredOnce(secrets, caption, path, secrets[i].path);
      }
    }
    forall i | 0 <= i < n && secrets[i].name in FIXED_LABELS
      ensures exists item :: item in items && Shows(item, secrets[i].name)
                             && Clicked(item.id, secrets) != Select(secrets[i].path)
    {
      var item := if secrets[i].name == "E_xit" then items[n + 2] else items[n + 1];
      assert item in items && Shows(item, secrets[i].name);
    }
  }

  /** A secret named like the exit item: the item with its name exits. */
  lemma SecretNamedExit(path: string)
    ensures var secrets := [Secret("E_xit", path)];
            var item := LayoutOf([], secrets).children[3];
            && Shows(item, "E_xit") && Stored(secrets, "E_xit", path) && Clicked(item.id, secrets) == Exit
  {
    var secrets := [Secret("E_xit", path)];
    assert LayoutOf([], secrets).children[3] == FixedEntries([])[2];
    assert secrets[0] == Secret("E_xit", path);
  }

  /** The click handler's subtraction overflows for exactly one ID, which no item has. */
  lemma ClickOverflowsIff(names: seq<string>, secrets: seq<Secret>, id: i32)
    requires |secrets| <= 0x7FFF_FFFF
    ensures Clicked(id, secrets) == Overflow <==> id == -0x8000_0000
    ensures forall item :: item in LayoutOf(names, secrets).children ==> Clicked(item.id, secrets) != Overflow
  {
    var items := LayoutOf(names, secrets).children;
    forall item | item in items
      ensures item.id > 0
    {
      var i :| 0 <= i < |items| && items[i] == item;
    }
  }

  predicate DistinctIds(items: seq<Layout>) {
    forall i, j :: 0 <= i < j < |items| ==> items[i].id != items[j].id
  }

  /** Item IDs are pairwise different exactly if the secrets stay below the reserved IDs. */
  lemma IdsDistinctIff(names: seq<string>, secrets: seq<Secret>)
    requires |secrets| <= 0x7FFF_FFFF
    ensures DistinctIds(LayoutOf(names, secrets).children) <==> |secrets| < MENU_UPDATE_ID
  {
    var items, n := LayoutOf(names, secrets).children, |secrets|;
    assert items[n].id == MENU_SEPARATOR_ID && items[n + 1].id == MENU_UPDATE_ID && items[n + 2].id == MENU_EXIT_ID;
    if n >= MENU_UPDATE_ID {
      assert items[MENU_UPDATE_ID - 1].id == MENU_UPDATE_ID;
    }
  }

  /** The menu has two levels, so its preorder is the top followed by the items. */
  lemma MenuPreorder(names: seq<string>, secrets: seq<Secret>)
    requires |secrets| <= 0x7FFF_FFFF
    ensures Preorder(LayoutOf(names, secrets)) == [LayoutOf(names, secrets)] + LayoutOf(names, secrets).children
  {
    var items := LayoutOf(names, secrets).children;
    assert forall i :: 0 <= i < |items| ==> items[i].children == [];
    hide LayoutOf;
    LeavesPreorder(items);
  }

  lemma {:induction false} LeavesPreorder(ls: seq<Layout>)
    requires forall i :: 0 <= i < |ls| ==> ls[i].children == []
    ensures PreorderAll(ls) == ls
    decreases |ls|
  {
    if |ls| > 0 {
      LeavesPreorder(ls[1..]);
      assert Preorder(ls[0]) == [ls[0]];
      assert ls == [ls[0]] + ls[1..];
    }
  }

  lemma {:induction false} RequestedContains(entries: seq<Layout>, ids: seq<i32>, names: seq<string>,
                                             id: i32, props: Properties)
    ensures (id, props) in Requested(entries, ids, names)
       <==> && id in ids
            && exists i :: 0 <= i < |entries| && entries[i].id == id && props == Restrict(entries[i].properties, names)
    decreases |entries|
  {
    hide Restrict;
    if |entries| > 0 {
      RequestedContains(entries[1..], ids, names, id, props);
      assert forall i :: 0 <= i < |entries[1..]| ==> entries[1..][i] == entries[i + 1];
      if i :| 0 <= i < |entries| && entries[i].id == id && props == Restrict(entries[i].properties, names) {
        assert i > 0 ==> entries[1..][i - 1] == entries[i];
      }
    }
  }

  /** Asking for one secret's item by ID yields its wanted label and type, and the same properties the
      layout shows. */
  lemma GroupPropertiesOfSecret(names: seq<string>, secrets: seq<Secret>, ids: seq<i32>, i: nat)
    requires i < |secrets| <= 0x7FFF_FFFF && i + 1 in ids
    ensures (i + 1, EntryProperties(names, "standard", Some(secrets[i].name)))
            in Requested(Preorder(LayoutOf(names, secrets)), ids, names)
  {
    var entries := Preorder(LayoutOf(names, secrets));
    MenuPreorder(names, secrets);
    assert entries[i + 1] == SecretEntry(names, i, secrets[i]);
    var props := EntryProperties(names, "standard", Some(secrets[i].name));
    assert Restrict(props, names) == props;
    hide LayoutOf, Preorder, Restrict, EntryProperties, Requested;
    RequestedContains(entries, ids, names, i + 1, props);
  }

  // ----- what is shown, and what is asked for -----

  predicate Asked(names: seq<string>, key: string) {
    names == [] || exists i :: 0 <= i < |names| && names[i] == key
  }

  /** The top has ID 0. An item shows a label and a type exactly if asked for; secrets their name, in order, then the
      separator without a label, then update and exit. No item shows anything else. */
  lemma ItemShows(names: seq<string>, secrets: seq<Secret>, i: nat)
    requires |secrets| <= 0x7FFF_FFFF && i < |secrets| + 3
    ensures var props := LayoutOf(names, secrets).children[i].properties;
            && LayoutOf(names, secrets).id == 0 && props.Keys <= {"type", "label"}
            && ("type" in props <==> Asked(names, "type"))
            && ("type" in props ==> props["type"] == if i == |secrets| then "separator" else "standard")
            && ("label" in props <==> Asked(names, "label") && i != |secrets|)
            && ("label" in props ==>
                  props["label"] == if i < |secrets| then secrets[i].name
                                    else if i == |secrets| + 1 then "_Update menu" else "E_xit")
  {
    var item := LayoutOf(names, secrets).children[i];
    AskedIsWanted(names, "type");
    AskedIsWanted(names, "label");
    assert item == if i < |secrets| then SecretEntry(names, i, secrets[i]) else FixedEntries(names)[i - |secrets|];
  }

  lemma AskedIsWanted(names: seq<string>, key: string)
    ensures Want(names, key) <==> Asked(names, key)
  {
  }

  /** A nonempty list of property names bounds what is returned; the values are the entry's. */
  lemma RestrictIsBounded(properties: Properties, names: seq<string>)
    ensures forall key :: key in Restrict(properties, names) <==> key in properties && Asked(names, key)
    ensures forall key :: key in Restrict(properties, names) ==> Restrict(properties, names)[key] == properties[key]
  {
    forall key
      ensures Want(names, key) <==> Asked(names, key)
    {
      AskedIsWanted(names, key);
    }
  }

  /** Every returned group has a requested ID, and with a nonempty list of names no other properties. */
  lemma RequestedIsBounded(names: seq<string>, secrets: seq<Secret>, ids: seq<i32>, k: nat)
    requires |secrets| <= 0x7FFF_FFFF
    requires k < |Requested(Preorder(LayoutOf(names, secrets)), ids, names)|
    ensures var (id, props) := Requested(Preorder(LayoutOf(names, secrets)), ids, names)[k];
            id in ids && forall key :: key in props ==> Asked(names, key)
  {
    hide LayoutOf, Preorder, Restrict, Requested;
    var entries := Preorder(LayoutOf(names, secrets));
    var (id, props) := Requested(entries, ids, names)[k];
    RequestedContains(entries, ids, names, id, props);
    var i :| 0 <= i < |entries| && entries[i].id == id && props == Restrict(entries[i].properties, names);
    RestrictIsBounded(entries[i].properties, names);
  }

  function RequestedOne(entry: Layout, ids: seq<i32>, names: seq<string>): seq<(i32, Properties)> {
    if entry.id in ids then [(entry.id, Restrict(entry.properties, names))] else []
  }

  lemma RequestedStep(entries: seq<Layout>, ids: seq<i32>, names: seq<string>)
    requires |entries| > 0
    ensures Requested(entries, ids, names) == RequestedOne(entries[0], ids, names) + Requested(entries[1..], ids, names)
  {
    hide Restrict;
  }

  /** Groups come back in the order of the entries, once each. */
  lemma {:induction false} RequestedConcat(a: seq<Layout>, b: seq<Layout>, ids: seq<i32>, names: seq<string>)
    ensures Requested(a + b, ids, names) == Requested(a, ids, names) + Requested(b, ids, names)
    decreases |a|
  {
    hide Restrict;
    if |a| == 0 {
      assert a + b == b;
    } else {
      RequestedStep(a, ids, names);
      RequestedStep(a + b, ids, names);
      hide Requested;
      assert (a + b)[1..] == a[1..] + b && (a + b)[0] == a[0];
      RequestedConcat(a[1..], b, ids, names);
    }
  }

  /** Every click, by the item clicked: secrets select their path, the separator does nothing, update
      updates, exit exits; and every ID that no item has does nothing but, once, overflow. */
  lemma ClickDoes(names: seq<string>, secrets: seq<Secret>, id: i32)
    requires |secrets| < MENU_UPDATE_ID
    ensures var items, n := LayoutOf(names, secrets).children, |secrets|;
            && (forall i :: 0 <= i < n && items[i].id == id ==> Clicked(id, secrets) == Select(secrets[i].path))
            && (items[n].id == id ==> Clicked(id, secrets) == Ignore)
            && (items[n + 1].id == id ==> Clicked(id, secrets) == Update)
            && (items[n + 2].id == id ==> Clicked(id, secrets) == Exit)
            && ((forall i :: 0 <= i < |items| ==> items[i].id != id) ==>
                  Clicked(id, secrets) == if id == -0x8000_0000 then Overflow else Ignore)
  {
    var items, n := LayoutOf(names, secrets).children, |secrets|;
    assert items[n] == FixedEntries(names)[0] && items[n + 1] == FixedEntries(names)[1];
    assert items[n + 2] == FixedEntries(names)[2];
    if 0 < id <= n {
      assert items[id - 1].id == id;
    }
  }

  /** What an item shows is what a click on it does: the item labelled "_Update menu" updates and the one
      labelled "E_xit" exits, unless a secret bears the name. */
  lemma FixedLabelsAct(names: seq<string>, secrets: seq<Secret>, item: Layout)
    requires |secrets| < MENU_UPDATE_ID && item in LayoutOf(names, secrets).children
    ensures Shows(item, "_Update menu") ==>
              Clicked(item.id, secrets) == Update || exists path :: Stored(secrets, "_Update menu", path)
    ensures Shows(item, "E_xit") ==>
              Clicked(item.id, secrets) == Exit || exists path :: Stored(secrets, "E_xit", path)
  {
    var items, n := LayoutOf(names, secrets).children, |secrets|;
    var i :| 0 <= i < |items| && items[i] == item;
    ItemShows(names, secrets, i);
    ClickDoes(names, secrets, item.id);
    assert items[n] == FixedEntries(names)[0] && items[n + 1] == FixedEntries(names)[1];
    assert items[n + 2] == FixedEntries(names)[2];
    if i < n {
      assert secrets[i] == Secret(secrets[i].name, secrets[i].path);
      assert Stored(secrets, secrets[i].name, secrets[i].path);
    }
  }
}
