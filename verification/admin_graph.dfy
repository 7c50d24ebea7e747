/** The admin graph whose menu the passes change in place. */
module AdminGraphs {
  import opened Text
  import opened AdminMenus

  // ---------------------------------------------------------------------------
  // Filtering in place
  // ---------------------------------------------------------------------------

  lemma {:induction false} RemovePageAppend(items: seq<Item>, it: Item, page: string)
    ensures RemovePage(items + [it], page) ==
            RemovePage(items, page) + if it.page == page then [] else [it.(children := RemovePage(it.children, page))]
    decreases |items|
  {
    if items == [] {
      assert items + [it] == [it];
    } else {
      assert (items + [it])[1..] == items[1..] + [it];
      RemovePageAppend(items[1..], it, page);
    }
  }

  method WithoutPageBelow(it: Item, page: string) returns (kept: Item)
    ensures kept == it.(children := RemovePage(it.children, page))
    decreases it
  {
    kept := it;
    if |it.children| > 0 {
      var children := new Item[|it.children|](i requires 0 <= i < |it.children| => it.children[i]);
      assert children[..] == it.children;
      var m := RemoveMenuPage(children, page);
      kept := it.(children := children[..m]);
    }
  }

  /** Compacts the array towards its front: what is kept is the recursive, order-preserving filter. */
  method RemoveMenuPage(items: array<Item>, page: string) returns (n: nat)
    modifies items
    ensures n <= items.Length
    ensures items[..n] == RemovePage(old(items[..]), page)
    decreases items[..]
  {
    ghost var start := items[..];
    n := 0;
    for r := 0 to items.Length
      invariant n <= r
      invariant items[..n] == RemovePage(start[..r], page)
      invariant forall k :: r <= k < items.Length ==> items[k] == start[k]
    {
      var it := items[r];
      assert it == start[r];
      RemovePageAppend(start[..r], it, page);
      assert start[..r + 1] == start[..r] + [it];
      if it.page != page {
        it := WithoutPageBelow(it, page);
        items[n] := it;
        n := n + 1;
      }
    }
    assert start[..items.Length] == start;
  }

  lemma {:induction false} RemoveLabelAppend(items: seq<Item>, it: Item, lower: string)
    ensures RemoveLabel(items + [it], lower) ==
            RemoveLabel(items, lower) +
              if ToLower(it.title) == lower then [] else [it.(children := RemoveLabel(it.children, lower))]
    decreases |items|
  {
    if items == [] {
      assert items + [it] == [it];
    } else {
      assert (items + [it])[1..] == items[1..] + [it];
      RemoveLabelAppend(items[1..], it, lower);
    }
  }

  method WithoutLabelBelow(it: Item, lower: string) returns (kept: Item)
    ensures kept == it.(children := RemoveLabel(it.children, lower))
    decreases it
  {
    kept := it;
    if |it.children| > 0 {
      var children := new Item[|it.children|](i requires 0 <= i < |it.children| => it.children[i]);
      assert children[..] == it.children;
      var m := RemoveMenuItemByLabel(children, lower);
      kept := it.(children := children[..m]);
    }
  }

  method RemoveMenuItemByLabel(items: array<Item>, lower: string) returns (n: nat)
    modifies items
    ensures n <= items.Length
    ensures items[..n] == RemoveLabel(old(items[..]), lower)
    decreases items[..]
  {
    ghost var start := items[..];
    n := 0;
    for r := 0 to items.Length
      invariant n <= r
      invariant items[..n] == RemoveLabel(start[..r], lower)
      invariant forall k :: r <= k < items.Length ==> items[k] == start[k]
    {
      var it := items[r];
      assert it == start[r];
      RemoveLabelAppend(start[..r], it, lower);
      assert start[..r + 1] == start[..r] + [it];
      if ToLower(it.title) != lower {
        it := WithoutLabelBelow(it, lower);
        items[n] := it;
        n := n + 1;
      }
    }
    assert start[..items.Length] == start;
  }

  // ---------------------------------------------------------------------------
  // Merging
  // ---------------------------------------------------------------------------

  lemma {:induction false} NewByPageAppend(seen: set<string>, injected: seq<Item>, it: Item)
    ensures NewByPage(seen, injected + [it]) ==
            NewByPage(seen, injected) +
              if it.page != "" && it.page in seen + PagesOf(NewByPage(seen, injected)) then [] else [it]
    decreases |injected|
  {
    if injected == [] {
      assert injected + [it] == [it] && [it][1..] == [];
    } else {
      var first, rest := injected[0], injected[1..];
      assert (injected + [it])[1..] == rest + [it];
      if first.page != "" && first.page in seen {
        NewByPageAppend(seen, rest, it);
      } else {
        NewByPageAppend(seen + {first.page}, rest, it);
        PagesCons(first, NewByPage(seen + {first.page}, rest));
      }
    }
  }

  method MergeMenuChildrenByPage(existing: seq<Item>, injected: seq<Item>, sort: Sorter) returns (merged: seq<Item>)
    ensures merged == MergeByPage(existing, injected, sort)
  {
    if |existing| == 0 {
      return injected;
    }
    var seen: set<string> := {};
    merged := [];
    for i := 0 to |existing|
      invariant merged == existing[..i]
      invariant forall page :: page != "" ==> (page in seen <==> page in PagesOf(existing[..i]))
    {
      var it := existing[i];
      ghost var before := existing[..i];
      assert existing[..i + 1] == before + [it];
      OneMorePage(before, it);
      if it.page != "" {
        seen := seen + {it.page};
      }
      merged := merged + [it];
    }
    assert existing[..|existing|] == existing;
    ghost var known := PagesOf(existing);
    for i := 0 to |injected|
      invariant merged == existing + NewByPage(known, injected[..i])
      invariant forall page :: page != "" ==>
                (page in seen <==> page in known + PagesOf(NewByPage(known, injected[..i])))
    {
      var it := injected[i];
      NewByPageAppend(known, injected[..i], it);
      OneMorePage(NewByPage(known, injected[..i]), it);
      assert injected[..i + 1] == injected[..i] + [it];
      if it.page != "" {
        if it.page in seen {
          continue;
        }
        seen := seen + {it.page};
      }
      merged := merged + [it];
    }
    assert injected[..|injected|] == injected;
    merged := SortDeep(merged, sort);
  }

  // ---------------------------------------------------------------------------
  // The graph
  // ---------------------------------------------------------------------------

  lemma {:induction false} UpdateFirstAt(menu: seq<Item>, title: string, change: Item -> Item, i: nat)
    requires i <= |menu| && forall j :: 0 <= j < i ==> menu[j].title != title
    requires i < |menu| ==> menu[i].title == title
    ensures UpdateFirst(menu, title, change) == if i < |menu| then menu[i := change(menu[i])] else menu
    ensures HasLabel(menu, title) == (i < |menu|)
    decreases i
  {
    if i > 0 {
      UpdateFirstAt(menu[1..], title, change, i - 1);
    }
  }

  class AdminGraph {
    var menu: seq<Item>
    var resources: seq<Resource>
    const features: Features

    constructor (menu: seq<Item>, resources: seq<Resource>, features: Features)
      ensures this.menu == menu && this.resources == resources && this.features == features
    {
      this.menu, this.resources, this.features := menu, resources, features;
    }

    method ApplyNavPreferences(prefs: Prefs)
      modifies this`resources
      ensures resources == ApplyPrefs(old(resources), prefs)
    {
      ghost var start := resources;
      for i := 0 to |resources|
        invariant |resources| == |start|
        invariant forall j :: 0 <= j < |start| ==> resources[j] == if j < i then WithPrefs(start[j], prefs)
                  else start[j]
      {
        var name := resources[i].name;
        if name in prefs.resources {
          resources := resources[i := resources[i].(pin := prefs.resources[name])];
        }
      }
    }

    /** The index of the first item with the title, or the length. */
    method FindTitle(title: string) returns (i: nat)
      ensures i <= |menu| && (forall j :: 0 <= j < i ==> menu[j].title != title)
      ensures i < |menu| ==> menu[i].title == title
    {
      i := 0;
      while i < |menu| && menu[i].title != title
        invariant i <= |menu| && forall j :: 0 <= j < i ==> menu[j].title != title
      {
        i := i + 1;
      }
    }

    method RemovePageFromMenu(page: string)
      modifies this`menu
      ensures menu == RemovePage(old(menu), page)
    {
      var items := new Item[|menu|](i requires 0 <= i < |menu| reads this => menu[i]);
      assert items[..] == menu;
      var n := RemoveMenuPage(items, page);
      menu := items[..n];
    }

    method PruneMenuByFeatures()
      modifies this`menu
      ensures menu == Prune(old(menu), features)
      ensures Chains(menu, []) == Kept(Chains(old(menu), []), Disabled(features))
      ensures features.featureFlags && features.liveops ==> menu == old(menu)
      ensures !features.liveops ==> !Has(menu, Monitoring)
    {
      PruneKeeps(menu, features);
      PrunedHas(menu, features, Monitoring);
      if !features.featureFlags {
        RemovePageFromMenu("feature-flags");
      }
      if !features.liveops {
        var items := new Item[|menu|](i requires 0 <= i < |menu| reads this => menu[i]);
        assert items[..] == menu;
        var n := RemoveMenuItemByLabel(items, "monitoring");
        menu := items[..n];
      }
    }

    method CollectResources(prefs: Prefs, sort: Sorter) returns (children: seq<Item>)
      ensures children == ResourceChildren(resources, prefs, sort)
    {
      var pinned: seq<Item>, unpinned := [], 0;
      for i := 0 to |resources|
        invariant pinned == PinnedItems(resources, prefs, i) && unpinned == UnpinnedCount(resources, prefs, i)
      {
        var r := resources[i];
        if !Visible(r) || IsUser(r) {
          continue;
        }
        if r.pin || ResourcePinned(prefs, r.name, false) {
          pinned := pinned + [Item(r.title, "resource:" + r.name, r.priority, [])];
        } else {
          unpinned := unpinned + 1;
        }
      }
      children := SortDeep(pinned, sort);
      if unpinned > 0 {
        children := children + [Item("Other Resources", "resources", 999, [])];
      }
    }

    method EnsureResourcesMenuSection(prefs: Prefs, sort: Sorter)
      modifies this`menu
      ensures menu == EnsureResources(old(menu), resources, prefs, sort)
    {
      var children := CollectResources(prefs, sort);
      if children == [] {
        return;
      }
      var i := FindTitle("Resources");
      UpdateFirstAt(menu, "Resources", MergeInto(children, sort), i);
      if i < |menu| {
        var merged := MergeMenuChildrenByPage(menu[i].children, children, sort);
        menu := menu[i := menu[i].(children := merged)];
      }
    }

    method InjectPinnedNavItems(sort: Sorter)
      modifies this`menu
      ensures menu == InjectPinned(old(menu), resources, |resources|, sort)
    {
      ghost var start := menu;
      for i := 0 to |resources|
        invariant menu == InjectPinned(start, resources, i, sort)
      {
        var r := resources[i];
        if !Visible(r) || !r.pin || IsUser(r) {
          continue;
        }
        InjectItem("resources", Item(r.title, "resource:" + r.name, r.priority, []), sort);
      }
    }

    method InjectItem(lower: string, child: Item, sort: Sorter)
      modifies this`menu
      ensures menu == Inject(old(menu), lower, child, sort)
    {
      if ContainsPage(menu, child.page) {
        return;
      }
      var changed := InjectChild(menu, lower, child, sort);
      if changed.Some? {
        menu := changed.value;
      } else {
        menu := menu + [child];
      }
    }

    method EnsureAppFeaturesMenuSection(screens: seq<Screen>, prefs: Prefs, sort: Sorter)
      modifies this`menu
      ensures menu == EnsureAppFeatures(old(menu), features, screens, prefs, sort)
    {
      if !features.appFeatures {
        RemovePageFromMenu("app-features");
        return;
      }
      var section := BuildAppFeaturesMenuSection(screens, prefs, sort);
      var i := FindTitle("App Features");
      UpdateFirstAt(menu, "App Features", ReplaceBy(section), i);
      if i < |menu| {
        menu := menu[i := section];
        return;
      }
      RemovePageFromMenu("app-features");
      menu := menu + [section];
    }

    method InjectPinnedFeatureItems(screens: seq<Screen>, prefs: Prefs, sort: Sorter)
      modifies this`menu
      ensures menu == InjectScreens(old(menu), screens, prefs, |screens|, sort)
    {
      ghost var start := menu;
      for i := 0 to |screens|
        invariant menu == InjectScreens(start, screens, prefs, i, sort)
      {
        var page := "screen:" + screens[i].name;
        if !FeaturePinned(prefs, page) {
          continue;
        }
        InjectItem("app features", Item(screens[i].name, page, 100, []), sort);
      }
    }

    method EnsureSettingsMenuSection(sort: Sorter)
      modifies this`menu
      ensures menu == EnsureSettings(old(menu), sort)
    {
      var i := FindTitle("Settings");
      UpdateFirstAt(menu, "Settings", AddAppSettings(sort), i);
      if i < |menu| {
        var children := menu[i].children;
        if !ContainsPage(children, "app-settings") {
          children := [Item("App Settings", "app-settings", 10, [])] + children;
        } else {
          assert [] + children == children;
        }
        menu := menu[i := menu[i].(children := SortDeep(children, sort))];
      }
    }

    method EnsureDocsMenuSection(sort: Sorter)
      modifies this`menu
      ensures menu == EnsureDocs(old(menu), features, sort)
    {
      if !features.apiDocs {
        RemovePageFromMenu("api-docs");
        RemovePageFromMenu("bffx-docs");
        return;
      }
      var i := FindTitle("Settings");
      UpdateFirstAt(menu, "Settings", AddDocs(sort), i);
      if i < |menu| {
        menu := menu[i := menu[i].(children := WithDocs(menu[i].children, sort))];
      }
    }

    method FinalizeAdminMenu(screens: seq<Screen>, prefs: Prefs, sort: Sorter)
      modifies this`menu
      ensures menu == Finalized(old(menu), features, resources, screens, prefs, sort)
    {
      PruneMenuByFeatures();
      if |menu| == 0 {
        menu := DefaultMenu(features, resources, screens, prefs, sort);
      } else {
        EnsureResourcesMenuSection(prefs, sort);
        menu := Attach(menu, resources, sort);
        InjectPinnedNavItems(sort);
        EnsureAppFeaturesMenuSection(screens, prefs, sort);
        InjectPinnedFeatureItems(screens, prefs, sort);
        EnsureSettingsMenuSection(sort);
        EnsureDocsMenuSection(sort);
      }
      menu := SortDeep(menu, sort);
    }

    /** What the reconciled menu promises, for any sibling sort. */
    method ReconcileAdminMenu(screens: seq<Screen>, prefs: Prefs, sort: Sorter)
      requires IsSorter(sort)
      modifies this`menu, this`resources
      ensures menu == Reconciled(old(menu), features, old(resources), screens, prefs, sort)
      ensures SortedDeep(menu) && InOrder(menu)
      ensures forall page :: Gated(page) && !Open(features, page) ==> !ContainsPage(menu, page)
      ensures !features.liveops ==> !Has(menu, StrayMonitoring)
      ensures features.appFeatures ==> HasGroup(menu, "App Features", ScreenPages(screens, prefs))
      ensures features.apiDocs && (old(menu) == [] || HasGroup(Prune(old(menu), features), "Settings", {})) ==>
                ContainsPage(menu, "api-docs") && ContainsPage(menu, "bffx-docs")
      ensures NeededPages(old(resources), prefs) != {} && (old(menu) == [] || PagelessGroup(old(menu))) ==>
                HasGroup(menu, "Resources", NeededPages(old(resources), prefs))
      ensures NeededPages(old(resources), prefs) != {} ==>
                var pruned := Prune(old(menu), features);
                && (pruned == [] || PagelessGroup(pruned) ==>
                     HasGroup(menu, "Resources", NeededPages(old(resources), prefs)))
                && (OneTitle(pruned) && HasGroup(menu, "Resources", NeededPages(old(resources), prefs)) ==>
                      pruned == [] || PagelessGroup(pruned))
    {
      ghost var before, rs := menu, resources;
      ApplyNavPreferences(prefs);
      FinalizeAdminMenu(screens, prefs, sort);
      ReconciledPromises(before, features, rs, screens, prefs, sort);
    }
  }

  /** The promises together. */
  lemma ReconciledPromises(before: seq<Item>, f: Features, rs: seq<Resource>, screens: seq<Screen>, prefs: Prefs,
                           sort: Sorter)
    requires IsSorter(sort)
    ensures var menu, need, pruned :=
            Reconciled(before, f, rs, screens, prefs, sort), NeededPages(rs, prefs), Prune(before, f);
            && SortedDeep(menu) && InOrder(menu)
            && (forall page :: Gated(page) && !Open(f, page) ==> !ContainsPage(menu, page))
            && (!f.liveops ==> !Has(menu, StrayMonitoring))
            && (f.appFeatures ==> HasGroup(menu, "App Features", ScreenPages(screens, prefs)))
            && (f.apiDocs && (before == [] || HasGroup(pruned, "Settings", {})) ==>
                  ContainsPage(menu, "api-docs") && ContainsPage(menu, "bffx-docs"))
            && (need != {} && (before == [] || PagelessGroup(before)) ==> HasGroup(menu, "Resources", need))
            && (need != {} && (pruned == [] || PagelessGroup(pruned)) ==> HasGroup(menu, "Resources", need))
            && (need != {} && OneTitle(pruned) && HasGroup(menu, "Resources", need) ==>
                 pruned == [] || PagelessGroup(pruned))
  {
    hide Reconciled, HasGroup, SortedDeep, ContainsPage, PagelessGroup, OneTitle, NeededPages;
    PruneOfNothing(before, f);
    ReconciledIsSorted(before, f, rs, screens, prefs, sort);
    SortedIsInOrder(Reconciled(before, f, rs, screens, prefs, sort));
    forall page | Gated(page) && !Open(f, page)
      ensures !ContainsPage(Reconciled(before, f, rs, screens, prefs, sort), page) {
      DisabledPagesAreGone(before, f, rs, screens, prefs, sort, page);
    }
    if !f.liveops { MonitoringIsGone(before, f, rs, screens, prefs, sort); }
    if f.appFeatures { PinnedScreensAreListed(before, f, rs, screens, prefs, sort); }
    var pruned := Prune(before, f);
    if f.apiDocs && (before == [] || HasGroup(pruned, "Settings", {})) {
      DocsAreListed(before, f, rs, screens, prefs, sort, "api-docs");
      DocsAreListed(before, f, rs, screens, prefs, sort, "bffx-docs");
    }
    if PagelessGroup(before) { PrunedKeepsFirst(before, f); }
    if NeededPages(rs, prefs) != {} {
      if pruned == [] || PagelessGroup(pruned) {
        PinnedResourcesAreListed(before, f, rs, screens, prefs, sort);
      } else if OneTitle(pruned) {
        PinnedResourcesAreListedIff(before, f, rs, screens, prefs, sort);
      }
    }
  }

  lemma PruneOfNothing(menu: seq<Item>, f: Features)
    ensures menu == [] ==> Prune(menu, f) == []
  {}

  method BuildAppFeaturesMenuSection(screens: seq<Screen>, prefs: Prefs, sort: Sorter) returns (section: Item)
    ensures section == AppFeaturesSection(screens, prefs, sort)
  {
    var pinned: seq<Item>, unpinned := [], 0;
    for i := 0 to |screens|
      invariant pinned == PinnedScreens(screens, prefs, i) && unpinned == i - |pinned|
    {
      var page := "screen:" + screens[i].name;
      var title := screens[i].displayName;
      if title == "" {
        title := screens[i].name;
      }
      if FeaturePinned(prefs, page) {
        pinned := pinned + [Item(title, page, 100, [])];
      } else {
        unpinned := unpinned + 1;
      }
    }
    var children := SortDeep(pinned, sort);
    if unpinned > 0 || |children| == 0 {
      children := children + [Item("Other Features", "app-features", 999, [])];
    }
    section := Item("App Features", "", 70, children);
  }

  // ---------------------------------------------------------------------------
  // A sibling sort
  // ---------------------------------------------------------------------------

  function Inserted(items: seq<Item>, it: Item): seq<Item> {
    if items == [] || !Before(it, items[|items| - 1]) then items + [it]
    else Inserted(items[..|items| - 1], it) + [items[|items| - 1]]
  }

  /** Insertion sort, stable. */
  function InsertionSort(items: seq<Item>): seq<Item> {
    if items == [] then [] else Inserted(InsertionSort(items[..|items| - 1]), items[|items| - 1])
  }

  lemma BeforeIsOrder(a: Item, b: Item, c: Item)
    ensures !(Before(a, b) && Before(b, a))
    ensures !Before(b, a) && !Before(c, b) ==> !Before(c, a)
  {
    LessIsStrictOrder(a.title, b.title);
    LessIsStrictOrder(b.title, c.title);
    LessIsStrictOrder(a.title, c.title);
    if Less(c.title, a.title) && Less(a.title, b.title) { LessTransitive(c.title, a.title, b.title); }
    if Less(b.title, c.title) && Less(c.title, a.title) { LessTransitive(b.title, c.title, a.title); }
  }

  lemma {:induction false} InsertedMembers(items: seq<Item>, it: Item)
    ensures multiset(Inserted(items, it)) == multiset(items) + multiset{it}
    decreases |items|
  {
    if items != [] {
      var most, last := items[..|items| - 1], items[|items| - 1];
      assert items == most + [last];
      InsertedMembers(most, it);
    }
  }

  lemma {:induction false} InsertedSorted(items: seq<Item>, it: Item)
    requires SortedSiblings(items)
    ensures SortedSiblings(Inserted(items, it))
    decreases |items|
  {
    hide Before;
    if items != [] {
      var most, last := items[..|items| - 1], items[|items| - 1];
      if Before(it, last) {
        BeforeIsOrder(it, last, it);
        InsertedSorted(most, it);
        InsertedMembers(most, it);
        forall x | x in Inserted(most, it) ensures !Before(last, x) {
          assert x in multiset(Inserted(most, it));
          assert x == it || x in multiset(most);
        }
      } else {
        forall i | 0 <= i < |items| ensures !Before(it, items[i]) {
          if i < |items| - 1 { BeforeIsOrder(items[i], last, it); }
        }
      }
    }
  }

  lemma {:induction false} InsertionSortSorts(items: seq<Item>)
    ensures SortedSiblings(InsertionSort(items)) && multiset(InsertionSort(items)) == multiset(items)
    decreases |items|
  {
    hide Inserted, Before;
    if items != [] {
      var most, last := items[..|items| - 1], items[|items| - 1];
      InsertionSortSorts(most);
      InsertedSorted(InsertionSort(most), last);
      InsertedMembers(InsertionSort(most), last);
      assert items == most + [last];
    }
  }

  /** So the assumption on the library sort can be met. */
  lemma InsertionSortIsSorter()
    ensures IsSorter(InsertionSort)
  {
    forall s: seq<Item> ensures SortedSiblings(InsertionSort(s)) && multiset(InsertionSort(s)) == multiset(s) {
      InsertionSortSorts(s);
    }
  }
}
