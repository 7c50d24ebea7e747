/** The admin sidebar: a tree of menu items put through a chain of passes. */
module AdminMenus {
  import opened Options
  import opened Text

  datatype Item = Item(title: string, page: string, priority: int, children: seq<Item>)

  datatype Resource = Resource(name: string, enabled: Option<bool>, title: string, parent: string, priority: int,
    pin: bool)

  datatype Features = Features(featureFlags: bool, appFeatures: bool, liveops: bool, apiDocs: bool)

  datatype Screen = Screen(name: string, displayName: string)

  /** Operator pins; a missing preference map is an empty one. */
  datatype Prefs = Prefs(resources: map<string, bool>, features: map<string, bool>)

  /** A sibling sort.  The library sort compares priorities and titles only and promises no order of ties. */
  type Sorter = seq<Item> -> seq<Item>

  // ---------------------------------------------------------------------------
  // Trees
  // ---------------------------------------------------------------------------

  predicate ContainsPage(items: seq<Item>, page: string)
    decreases items
  {
    items != [] && (items[0].page == page || ContainsPage(items[0].children, page) || ContainsPage(items[1..], page))
  }

  /** Drops every item with the page, at any depth, with all below it. */
  function RemovePage(items: seq<Item>, page: string): seq<Item>
    decreases items
  {
    if items == [] then []
    else if items[0].page == page then RemovePage(items[1..], page)
    else [items[0].(children := RemovePage(items[0].children, page))] + RemovePage(items[1..], page)
  }

  /** Drops every item whose title (its label) is, up to case, the given lower-case one. */
  function RemoveLabel(items: seq<Item>, lower: string): seq<Item>
    decreases items
  {
    if items == [] then []
    else if ToLower(items[0].title) == lower then RemoveLabel(items[1..], lower)
    else [items[0].(children := RemoveLabel(items[0].children, lower))] + RemoveLabel(items[1..], lower)
  }

  predicate Before(a: Item, b: Item) {
    a.priority < b.priority || (a.priority == b.priority && Less(a.title, b.title))
  }

  ghost predicate SortedSiblings(items: seq<Item>) {
    forall i, j :: 0 <= i < j < |items| ==> !Before(items[j], items[i])
  }

  ghost predicate SortedDeep(items: seq<Item>)
    decreases items
  {
    SortedSiblings(items) && forall it :: it in items ==> SortedDeep(it.children)
  }

  ghost predicate IsSorter(sort: Sorter) {
    forall s: seq<Item> :: SortedSiblings(sort(s)) && multiset(sort(s)) == multiset(s)
  }

  function ChildrenSorted(items: seq<Item>, sort: Sorter): seq<Item>
    decreases items, 0
  {
    if items == [] then []
    else [items[0].(children := SortDeep(items[0].children, sort))] + ChildrenSorted(items[1..], sort)
  }

  /** Sorts every sibling list.  As the comparison ignores children, sorting them first or last is the same. */
  function SortDeep(items: seq<Item>, sort: Sorter): seq<Item>
    decreases items, 1
  {
    if items == [] then [] else sort(ChildrenSorted(items, sort))
  }

  // ---------------------------------------------------------------------------
  // What the resources ask for
  // ---------------------------------------------------------------------------

  const RESERVED := {
    "feature_flag", "feature_flags", "featureflag", "featureflags",
    "audit_log", "audit_logs", "auditlog", "auditlogs",
    "incident", "incidents",
    "admin_user", "admin_users", "adminuser", "adminusers"
  }

  predicate IsReserved(name: string) {
    "bffx_" <= ToLower(name) || ToLower(name) in RESERVED
  }

  predicate Visible(r: Resource) {
    (r.enabled.None? || r.enabled.value) && !IsReserved(r.name)
  }

  predicate IsUser(r: Resource) {
    ToLower(r.name) == "user"
  }

  function ResourcePinned(prefs: Prefs, name: string, manifestPin: bool): bool {
    if name in prefs.resources then prefs.resources[name] else manifestPin
  }

  function WithPrefs(r: Resource, prefs: Prefs): Resource {
    if r.name in prefs.resources then r.(pin := prefs.resources[r.name]) else r
  }

  function ApplyPrefs(rs: seq<Resource>, prefs: Prefs): seq<Resource> {
    seq(|rs|, i requires 0 <= i < |rs| => WithPrefs(rs[i], prefs))
  }

  function ResourcePage(r: Resource): string {
    "resource:" + r.name
  }

  function ResourceItem(r: Resource): Item {
    Item(r.title, ResourcePage(r), r.priority, [])
  }

  predicate Listed(r: Resource) {
    Visible(r) && !IsUser(r)
  }

  /** The items of the pinned ones among the first `n` listed resources. */
  function PinnedItems(rs: seq<Resource>, prefs: Prefs, n: nat): seq<Item>
    requires n <= |rs|
  {
    if n == 0 then []
    else PinnedItems(rs, prefs, n - 1) +
         if Listed(rs[n - 1]) && (rs[n - 1].pin || ResourcePinned(prefs, rs[n - 1].name, false)) then
           [ResourceItem(rs[n - 1])] else []
  }

  function UnpinnedCount(rs: seq<Resource>, prefs: Prefs, n: nat): nat
    requires n <= |rs|
  {
    if n == 0 then 0
    else UnpinnedCount(rs, prefs, n - 1) +
         if Listed(rs[n - 1]) && !(rs[n - 1].pin || ResourcePinned(prefs, rs[n - 1].name, false)) then 1 else 0
  }

  function ResourceChildren(rs: seq<Resource>, prefs: Prefs, sort: Sorter): seq<Item> {
    SortDeep(PinnedItems(rs, prefs, |rs|), sort) +
    if UnpinnedCount(rs, prefs, |rs|) > 0 then [Item("Other Resources", "resources", 999, [])] else []
  }

  // ---------------------------------------------------------------------------
  // The passes
  // ---------------------------------------------------------------------------

  function Prune(menu: seq<Item>, f: Features): seq<Item> {
    var kept := if f.featureFlags then menu else RemovePage(menu, "feature-flags");
    if f.liveops then kept else RemoveLabel(kept, "monitoring")
  }

  predicate HasLabel(menu: seq<Item>, title: string) {
    menu != [] && (menu[0].title == title || HasLabel(menu[1..], title))
  }

  function UpdateFirst(menu: seq<Item>, title: string, change: Item -> Item): seq<Item> {
    if menu == [] then []
    else if menu[0].title == title then [change(menu[0])] + menu[1..]
    else [menu[0]] + UpdateFirst(menu[1..], title, change)
  }

  /** The injected items whose page is new; items without a page are always taken. */
  function NewByPage(seen: set<string>, injected: seq<Item>): seq<Item>
    decreases |injected|
  {
    if injected == [] then []
    else if injected[0].page != "" && injected[0].page in seen then NewByPage(seen, injected[1..])
    else [injected[0]] + NewByPage(seen + {injected[0].page}, injected[1..])
  }

  function PagesOf(items: seq<Item>): set<string> {
    set it | it in items :: it.page
  }

  function MergeByPage(existing: seq<Item>, injected: seq<Item>, sort: Sorter): seq<Item> {
    if existing == [] then injected else SortDeep(existing + NewByPage(PagesOf(existing), injected), sort)
  }

  function MergeInto(injected: seq<Item>, sort: Sorter): Item -> Item {
    (it: Item) => it.(children := MergeByPage(it.children, injected, sort))
  }

  function EnsureResources(menu: seq<Item>, rs: seq<Resource>, prefs: Prefs, sort: Sorter): seq<Item> {
    var children := ResourceChildren(rs, prefs, sort);
    if children == [] then menu
    else UpdateFirst(menu, "Resources", MergeInto(children, sort))
  }

  predicate ParentMatches(resourceParent: string, title: string) {
    EqualFold(resourceParent, title) || (ToLower(resourceParent) == "app" && ToLower(title) == "operations")
  }

  function AttachResources(children: seq<Item>, title: string, rs: seq<Resource>, n: nat): seq<Item>
    requires n <= |rs|
  {
    if n == 0 then children
    else
      var before := AttachResources(children, title, rs, n - 1);
      var r := rs[n - 1];
      if Visible(r) && ParentMatches(r.parent, title) && !ContainsPage(before, ResourcePage(r)) then
        before + [ResourceItem(r)]
      else before
  }

  function AttachItem(it: Item, rs: seq<Resource>, sort: Sorter): Item
    decreases it, 1
  {
    var children := Attach(it.children, rs, sort);
    if it.page != "" && ToLower(it.title) != "operations" then it.(children := children)
    else it.(children := SortDeep(AttachResources(children, it.title, rs, |rs|), sort))
  }

  function Attach(items: seq<Item>, rs: seq<Resource>, sort: Sorter): seq<Item>
    decreases items, 0
  {
    if items == [] then [] else [AttachItem(items[0], rs, sort)] + Attach(items[1..], rs, sort)
  }

  /** Puts the child into the first group with the (lower-case) title, at any depth. */
  function InjectChild(items: seq<Item>, lower: string, child: Item, sort: Sorter): Option<seq<Item>>
    decreases items
  {
    if items == [] then None
    else if ToLower(items[0].title) == lower then
      if ContainsPage(items[0].children, child.page) then Some(items)
      else Some([items[0].(children := SortDeep(items[0].children + [child], sort))] + items[1..])
    else match InjectChild(items[0].children, lower, child, sort)
      case Some(children) => Some([items[0].(children := children)] + items[1..])
      case None =>
        match InjectChild(items[1..], lower, child, sort)
        case Some(rest) => Some([items[0]] + rest)
        case None => None
  }

  /** Injects into the group, or appends at the top, unless the page is already somewhere. */
  function Inject(menu: seq<Item>, lower: string, child: Item, sort: Sorter): seq<Item> {
    if ContainsPage(menu, child.page) then menu
    else match InjectChild(menu, lower, child, sort)
      case Some(changed) => changed
      case None => menu + [child]
  }

  function InjectPinned(menu: seq<Item>, rs: seq<Resource>, n: nat, sort: Sorter): seq<Item>
    requires n <= |rs|
  {
    if n == 0 then menu
    else
      var before := InjectPinned(menu, rs, n - 1, sort);
      if Listed(rs[n - 1]) && rs[n - 1].pin then Inject(before, "resources", ResourceItem(rs[n - 1]), sort) else before
  }

  function ScreenPage(s: Screen): string {
    "screen:" + s.name
  }

  predicate FeaturePinned(prefs: Prefs, page: string) {
    page in prefs.features && prefs.features[page]
  }

  function PinnedScreens(screens: seq<Screen>, prefs: Prefs, n: nat): seq<Item>
    requires n <= |screens|
  {
    if n == 0 then []
    else
      var s := screens[n - 1];
      PinnedScreens(screens, prefs, n - 1) +
      if FeaturePinned(prefs, ScreenPage(s)) then
        [Item(if s.displayName == "" then s.name else s.displayName, ScreenPage(s), 100, [])]
      else []
  }

  function AppFeaturesSection(screens: seq<Screen>, prefs: Prefs, sort: Sorter): Item {
    var pinned := PinnedScreens(screens, prefs, |screens|);
    var children := SortDeep(pinned, sort);
    Item("App Features", "", 70,
         children + if |pinned| < |screens| || |children| == 0 then [Item("Other Features", "app-features", 999, [])]
           else [])
  }

  function EnsureAppFeatures(menu: seq<Item>, f: Features, screens: seq<Screen>, prefs: Prefs,
                             sort: Sorter): seq<Item> {
    if !f.appFeatures then RemovePage(menu, "app-features")
    else
      var section := AppFeaturesSection(screens, prefs, sort);
      if HasLabel(menu, "App Features") then UpdateFirst(menu, "App Features", ReplaceBy(section))
      else RemovePage(menu, "app-features") + [section]
  }

  function InjectScreens(menu: seq<Item>, screens: seq<Screen>, prefs: Prefs, n: nat, sort: Sorter): seq<Item>
    requires n <= |screens|
  {
    if n == 0 then menu
    else
      var before := InjectScreens(menu, screens, prefs, n - 1, sort);
      var s := screens[n - 1];
      if FeaturePinned(prefs, ScreenPage(s)) then
        Inject(before, "app features", Item(s.name, ScreenPage(s), 100, []), sort)
      else before
  }

  function AddAppSettings(sort: Sorter): Item -> Item {
    (it: Item) =>
      var missing := if ContainsPage(it.children, "app-settings") then []
        else [Item("App Settings", "app-settings", 10, [])];
      it.(children := SortDeep(missing + it.children, sort))
  }

  function EnsureSettings(menu: seq<Item>, sort: Sorter): seq<Item> {
    UpdateFirst(menu, "Settings", AddAppSettings(sort))
  }

  function DocsSection(sort: Sorter): Item {
    Item("Docs", "", 20,
      SortDeep([Item("API Reference", "api-docs", 0, []), Item("BFFX Guide", "bffx-docs", 10, [])], sort))
  }

  function WithDocs(children: seq<Item>, sort: Sorter): seq<Item> {
    var kept := RemovePage(RemovePage(children, "api-docs"), "bffx-docs");
    if HasLabel(kept, "Docs") then UpdateFirst(kept, "Docs", ReplaceBy(DocsSection(sort)))
    else kept + [DocsSection(sort)]
  }

  function AddDocs(sort: Sorter): Item -> Item {
    (it: Item) => it.(children := WithDocs(it.children, sort))
  }

  function ReplaceBy(section: Item): Item -> Item {
    (_: Item) => section
  }

  function EnsureDocs(menu: seq<Item>, f: Features, sort: Sorter): seq<Item> {
    if !f.apiDocs then RemovePage(RemovePage(menu, "api-docs"), "bffx-docs")
    else UpdateFirst(menu, "Settings", AddDocs(sort))
  }

  /** The first visible user resource, if any. */
  function UserLabel(rs: seq<Resource>): Option<string> {
    if rs == [] then None
    else if Visible(rs[0]) && IsUser(rs[0]) then Some(rs[0].title)
    else UserLabel(rs[1..])
  }

  const NO_PREFS := Prefs(map[], map[])

  function MonitoringSection(sort: Sorter): Item {
    Item("Monitoring", "", 50, SortDeep([Item("Performance", "performance", 0, [])], sort))
  }

  function SettingsSection(f: Features, sort: Sorter): Item {
    Item("Settings", "", 90,
         SortDeep([Item("App Settings", "app-settings", 10, [])] +
           (if f.apiDocs then [DocsSection(sort)] else []), sort))
  }

  function If(condition: bool, it: Item): seq<Item> {
    if condition then [it] else []
  }

  function DefaultMenu(f: Features, rs: seq<Resource>, screens: seq<Screen>, prefs: Prefs, sort: Sorter): seq<Item> {
    var children := ResourceChildren(rs, NO_PREFS, sort);
    var user := UserLabel(rs);
    [Item("Dashboard", "dashboard", 0, [])]
    + If(f.featureFlags, Item("Feature Flags", "feature-flags", 5, []))
    + If(user.Some?, Item(if user.Some? then user.value else "", "users", 8, []))
    + If(f.liveops, MonitoringSection(sort))
    + If(children != [], Item("Resources", "", 80, children))
    + If(f.appFeatures, AppFeaturesSection(screens, prefs, sort))
    + [SettingsSection(f, sort)]
  }

  /** The passes over a menu that is not empty, in order. */
  function Repaired(menu: seq<Item>, f: Features, rs: seq<Resource>, screens: seq<Screen>, prefs: Prefs,
                    sort: Sorter): seq<Item> {
    var withResources := EnsureResources(menu, rs, prefs, sort);
    var attached := Attach(withResources, rs, sort);
    var pinned := InjectPinned(attached, rs, |rs|, sort);
    var withFeatures := EnsureAppFeatures(pinned, f, screens, prefs, sort);
    var withScreens := InjectScreens(withFeatures, screens, prefs, |screens|, sort);
    EnsureDocs(EnsureSettings(withScreens, sort), f, sort)
  }

  function Finalized(menu: seq<Item>, f: Features, rs: seq<Resource>, screens: seq<Screen>, prefs: Prefs,
                     sort: Sorter): seq<Item> {
    var pruned := Prune(menu, f);
    SortDeep(if pruned == [] then DefaultMenu(f, rs, screens, prefs, sort)
      else Repaired(pruned, f, rs, screens, prefs, sort), sort)
  }

  function Reconciled(menu: seq<Item>, f: Features, rs: seq<Resource>, screens: seq<Screen>, prefs: Prefs,
                      sort: Sorter): seq<Item> {
    Finalized(menu, f, ApplyPrefs(rs, prefs), screens, prefs, sort)
  }

  // ---------------------------------------------------------------------------
  // What is where
  // ---------------------------------------------------------------------------

  /** What an item shows: its title (its label) and its page. */
  type Head = (string, string)

  /** Some item, at any depth, has such a head. */
  predicate Has(items: seq<Item>, bad: Head -> bool)
    decreases items
  {
    items != [] && (ItemHas(items[0], bad) || Has(items[1..], bad))
  }

  predicate ItemHas(it: Item, bad: Head -> bool)
    decreases it
  {
    bad((it.title, it.page)) || Has(it.children, bad)
  }

  function PageIs(page: string): Head -> bool {
    (h: Head) => h.1 == page
  }

  lemma {:induction false} ContainsIsHas(items: seq<Item>, page: string)
    ensures ContainsPage(items, page) == Has(items, PageIs(page))
    decreases items
  {
    if items != [] {
      ContainsIsHas(items[0].children, page);
      ContainsIsHas(items[1..], page);
    }
  }

  lemma {:induction false} HasIff(items: seq<Item>, bad: Head -> bool)
    ensures Has(items, bad) <==> exists it :: it in items && ItemHas(it, bad)
    decreases |items|
  {
    if items != [] {
      HasIff(items[1..], bad);
      assert items[0] in items;
      if it :| it in items && ItemHas(it, bad) {
        assert it == items[0] || it in items[1..];
      }
      if it :| it in items[1..] && ItemHas(it, bad) {
        assert it in items;
      }
    }
  }

  lemma HasAppend(a: seq<Item>, b: seq<Item>, bad: Head -> bool)
    ensures Has(a + b, bad) <==> Has(a, bad) || Has(b, bad)
  {
    HasIff(a, bad);
    HasIff(b, bad);
    HasIff(a + b, bad);
    assert forall it :: it in a + b <==> it in a || it in b;
  }

  lemma OneHas(it: Item, bad: Head -> bool)
    ensures Has([it], bad) <==> ItemHas(it, bad)
    ensures !Has([], bad)
  {}

  lemma SortMembers(items: seq<Item>, sort: Sorter)
    requires IsSorter(sort)
    ensures forall it :: it in sort(items) <==> it in items
    ensures |sort(items)| == |items|
  {
    assert multiset(sort(items)) == multiset(items);
    forall it ensures it in sort(items) <==> it in items {
      assert it in multiset(sort(items)) <==> it in multiset(items);
    }
    assert |multiset(sort(items))| == |multiset(items)|;
  }

  lemma {:induction false} SortDeepHas(items: seq<Item>, sort: Sorter, bad: Head -> bool)
    requires IsSorter(sort)
    ensures Has(SortDeep(items, sort), bad) == Has(items, bad)
    decreases items, 1
  {
    if items != [] {
      ChildrenSortedHas(items, sort, bad);
      SortMembers(ChildrenSorted(items, sort), sort);
      HasIff(ChildrenSorted(items, sort), bad);
      HasIff(SortDeep(items, sort), bad);
    }
  }

  lemma {:induction false} ChildrenSortedHas(items: seq<Item>, sort: Sorter, bad: Head -> bool)
    requires IsSorter(sort)
    ensures Has(ChildrenSorted(items, sort), bad) == Has(items, bad)
    decreases items, 0
  {
    if items != [] {
      SortDeepHas(items[0].children, sort, bad);
      ChildrenSortedHas(items[1..], sort, bad);
      assert ChildrenSorted(items, sort)[1..] == ChildrenSorted(items[1..], sort);
    }
  }

  ghost predicate OnlyPage(bad: Head -> bool, page: string) {
    forall h: Head :: bad(h) ==> h.1 == page
  }

  ghost predicate OnlyTitle(bad: Head -> bool, title: string) {
    forall h: Head :: bad(h) ==> EqualFold(h.0, title)
  }

  /** Removing a page removes it at every depth, and brings nothing in. */
  lemma {:induction false} RemovedPage(items: seq<Item>, page: string, bad: Head -> bool)
    ensures Has(RemovePage(items, page), bad) ==> Has(items, bad) && !OnlyPage(bad, page)
    decreases items
  {
    if items != [] {
      RemovedPage(items[1..], page, bad);
      if items[0].page != page {
        RemovedPage(items[0].children, page, bad);
        var first := items[0].(children := RemovePage(items[0].children, page));
        OneHas(first, bad);
        HasAppend([first], RemovePage(items[1..], page), bad);
      }
    }
  }

  lemma {:induction false} RemovedLabel(items: seq<Item>, title: string, bad: Head -> bool)
    ensures Has(RemoveLabel(items, ToLower(title)), bad) ==> Has(items, bad) && !OnlyTitle(bad, title)
    decreases items
  {
    hide ToLower;
    if items != [] {
      RemovedLabel(items[1..], title, bad);
      if ToLower(items[0].title) != ToLower(title) {
        RemovedLabel(items[0].children, title, bad);
        var first := items[0].(children := RemoveLabel(items[0].children, ToLower(title)));
        OneHas(first, bad);
        HasAppend([first], RemoveLabel(items[1..], ToLower(title)), bad);
      }
    }
  }

  lemma {:induction false} UpdatedHas(menu: seq<Item>, title: string, change: Item -> Item, bad: Head -> bool)
    requires forall it :: it in menu && it.title == title && ItemHas(change(it), bad) ==> ItemHas(it, bad)
    ensures Has(UpdateFirst(menu, title, change), bad) ==> Has(menu, bad)
    decreases |menu|
  {
    if menu != [] {
      if menu[0].title == title {
        assert menu[0] in menu;
        assert UpdateFirst(menu, title, change)[1..] == menu[1..];
      } else {
        UpdatedHas(menu[1..], title, change, bad);
        assert UpdateFirst(menu, title, change)[1..] == UpdateFirst(menu[1..], title, change);
      }
    }
  }

  // ---------------------------------------------------------------------------
  // What the passes can bring in
  // ---------------------------------------------------------------------------

  /** The heads that repairing a menu may bring in are not bad: those of resources and screens, a few
      fixed ones, and those of the features that are on. */
  ghost predicate Harmless(bad: Head -> bool, f: Features) {
    && (forall title, name :: !bad((title, "resource:" + name)) && !bad((title, "screen:" + name)))
    && !bad(("Other Resources", "resources")) && !bad(("App Settings", "app-settings"))
    && (f.appFeatures ==> !bad(("App Features", "")) && !bad(("Other Features", "app-features")))
    && (f.apiDocs ==> !bad(("Docs", "")) && !bad(("API Reference", "api-docs")) && !bad(("BFFX Guide", "bffx-docs")))
  }

  /** Nor are those that the default menu has besides. */
  ghost predicate HarmlessDefault(bad: Head -> bool, f: Features) {
    && !bad(("Dashboard", "dashboard")) && !bad(("Resources", "")) && !bad(("Settings", ""))
    && (forall title :: !bad((title, "users")))
    && (f.featureFlags ==> !bad(("Feature Flags", "feature-flags")))
    && (f.liveops ==> !bad(("Monitoring", "")) && !bad(("Performance", "performance")))
  }

  lemma {:induction false} PinnedItemsPlain(rs: seq<Resource>, prefs: Prefs, n: nat, f: Features, bad: Head -> bool)
    requires n <= |rs| && Harmless(bad, f)
    ensures !Has(PinnedItems(rs, prefs, n), bad)
  {
    if n > 0 {
      PinnedItemsPlain(rs, prefs, n - 1, f, bad);
      OneHas(ResourceItem(rs[n - 1]), bad);
      HasAppend(PinnedItems(rs, prefs, n - 1), [ResourceItem(rs[n - 1])], bad);
      HasAppend(PinnedItems(rs, prefs, n - 1), [], bad);
    }
  }

  lemma ResourceChildrenPlain(rs: seq<Resource>, prefs: Prefs, sort: Sorter, f: Features, bad: Head -> bool)
    requires IsSorter(sort) && Harmless(bad, f)
    ensures !Has(ResourceChildren(rs, prefs, sort), bad)
  {
    var pinned, others := PinnedItems(rs, prefs, |rs|), Item("Other Resources", "resources", 999, []);
    PinnedItemsPlain(rs, prefs, |rs|, f, bad);
    SortDeepHas(pinned, sort, bad);
    OneHas(others, bad);
    HasAppend(SortDeep(pinned, sort), [others], bad);
    HasAppend(SortDeep(pinned, sort), [], bad);
  }

  lemma {:induction false} NewByPageWithin(seen: set<string>, injected: seq<Item>, bad: Head -> bool)
    ensures Has(NewByPage(seen, injected), bad) ==> Has(injected, bad)
    decreases |injected|
  {
    if injected != [] {
      NewByPageWithin(seen, injected[1..], bad);
      NewByPageWithin(seen + {injected[0].page}, injected[1..], bad);
      HasAppend([injected[0]], NewByPage(seen + {injected[0].page}, injected[1..]), bad);
      OneHas(injected[0], bad);
    }
  }

  lemma MergedWithin(existing: seq<Item>, injected: seq<Item>, sort: Sorter, bad: Head -> bool)
    requires IsSorter(sort)
    ensures Has(MergeByPage(existing, injected, sort), bad) ==> Has(existing, bad) || Has(injected, bad)
  {
    var added := NewByPage(PagesOf(existing), injected);
    NewByPageWithin(PagesOf(existing), injected, bad);
    HasAppend(existing, added, bad);
    SortDeepHas(existing + added, sort, bad);
  }

  lemma EnsureResourcesWithin(menu: seq<Item>, rs: seq<Resource>, prefs: Prefs, sort: Sorter, f: Features,
                              bad: Head -> bool)
    requires IsSorter(sort) && Harmless(bad, f)
    ensures Has(EnsureResources(menu, rs, prefs, sort), bad) ==> Has(menu, bad)
  {
    var children := ResourceChildren(rs, prefs, sort);
    ResourceChildrenPlain(rs, prefs, sort, f, bad);
    forall it: Item ensures Has(MergeByPage(it.children, children, sort), bad) ==> Has(it.children, bad) {
      MergedWithin(it.children, children, sort, bad);
    }
    UpdatedHas(menu, "Resources", MergeInto(children, sort), bad);
  }

  lemma {:induction false} AttachResourcesWithin(children: seq<Item>, title: string, rs: seq<Resource>, n: nat,
                                                 f: Features,
                                                 bad: Head -> bool)
    requires n <= |rs| && Harmless(bad, f)
    ensures Has(AttachResources(children, title, rs, n), bad) ==> Has(children, bad)
  {
    if n > 0 {
      AttachResourcesWithin(children, title, rs, n - 1, f, bad);
      OneHas(ResourceItem(rs[n - 1]), bad);
      HasAppend(AttachResources(children, title, rs, n - 1), [ResourceItem(rs[n - 1])], bad);
    }
  }

  lemma {:induction false} AttachItemWithin(it: Item, rs: seq<Resource>, sort: Sorter, f: Features, bad: Head -> bool)
    requires IsSorter(sort) && Harmless(bad, f)
    ensures ItemHas(AttachItem(it, rs, sort), bad) ==> ItemHas(it, bad)
    decreases it, 1
  {
    AttachWithin(it.children, rs, sort, f, bad);
    var children := Attach(it.children, rs, sort);
    AttachResourcesWithin(children, it.title, rs, |rs|, f, bad);
    SortDeepHas(AttachResources(children, it.title, rs, |rs|), sort, bad);
  }

  lemma {:induction false} AttachWithin(items: seq<Item>, rs: seq<Resource>, sort: Sorter, f: Features,
                                        bad: Head -> bool)
    requires IsSorter(sort) && Harmless(bad, f)
    ensures Has(Attach(items, rs, sort), bad) ==> Has(items, bad)
    decreases items, 0
  {
    if items != [] {
      AttachItemWithin(items[0], rs, sort, f, bad);
      AttachWithin(items[1..], rs, sort, f, bad);
      OneHas(AttachItem(items[0], rs, sort), bad);
      HasAppend([AttachItem(items[0], rs, sort)], Attach(items[1..], rs, sort), bad);
    }
  }

  lemma {:induction false} InjectChildWithin(items: seq<Item>, lower: string, child: Item, sort: Sorter,
                                             bad: Head -> bool)
    requires IsSorter(sort) && !ItemHas(child, bad)
    ensures var r := InjectChild(items, lower, child, sort);
            r.Some? && Has(r.value, bad) ==> Has(items, bad)
    decreases items
  {
    if items != [] {
      InjectChildWithin(items[0].children, lower, child, sort, bad);
      InjectChildWithin(items[1..], lower, child, sort, bad);
      SortDeepHas(items[0].children + [child], sort, bad);
      HasAppend(items[0].children, [child], bad);
      OneHas(child, bad);
      var r := InjectChild(items, lower, child, sort);
      if r.Some? {
        HasAppend([r.value[0]], r.value[1..], bad);
        assert r.value == [r.value[0]] + r.value[1..];
        OneHas(r.value[0], bad);
      }
    }
  }

  lemma InjectWithin(menu: seq<Item>, lower: string, child: Item, sort: Sorter, bad: Head -> bool)
    requires IsSorter(sort) && !ItemHas(child, bad)
    ensures Has(Inject(menu, lower, child, sort), bad) ==> Has(menu, bad)
  {
    InjectChildWithin(menu, lower, child, sort, bad);
    HasAppend(menu, [child], bad);
    OneHas(child, bad);
  }

  lemma {:induction false} InjectPinnedWithin(menu: seq<Item>, rs: seq<Resource>, n: nat, sort: Sorter, f: Features,
                                              bad: Head -> bool)
    requires IsSorter(sort) && Harmless(bad, f) && n <= |rs|
    ensures Has(InjectPinned(menu, rs, n, sort), bad) ==> Has(menu, bad)
  {
    hide Inject;
    if n > 0 {
      InjectPinnedWithin(menu, rs, n - 1, sort, f, bad);
      InjectWithin(InjectPinned(menu, rs, n - 1, sort), "resources", ResourceItem(rs[n - 1]), sort, bad);
    }
  }

  lemma {:induction false} InjectScreensWithin(menu: seq<Item>, screens: seq<Screen>, prefs: Prefs, n: nat,
                                               sort: Sorter, f: Features, bad: Head -> bool)
    requires IsSorter(sort) && Harmless(bad, f) && n <= |screens|
    ensures Has(InjectScreens(menu, screens, prefs, n, sort), bad) ==> Has(menu, bad)
  {
    hide Inject;
    if n > 0 {
      InjectScreensWithin(menu, screens, prefs, n - 1, sort, f, bad);
      var s := screens[n - 1];
      InjectWithin(InjectScreens(menu, screens, prefs, n - 1, sort), "app features",
        Item(s.name, ScreenPage(s), 100, []), sort, bad);
    }
  }

  lemma {:induction false} PinnedScreensPlain(screens: seq<Screen>, prefs: Prefs, n: nat, f: Features,
                                              bad: Head -> bool)
    requires n <= |screens| && Harmless(bad, f)
    ensures !Has(PinnedScreens(screens, prefs, n), bad)
  {
    if n > 0 {
      var before, s := PinnedScreens(screens, prefs, n - 1), screens[n - 1];
      PinnedScreensPlain(screens, prefs, n - 1, f, bad);
      var it := Item(if s.displayName == "" then s.name else s.displayName, ScreenPage(s), 100, []);
      OneHas(it, bad);
      HasAppend(before, [it], bad);
      HasAppend(before, [], bad);
    }
  }

  lemma AppFeaturesSectionPlain(screens: seq<Screen>, prefs: Prefs, sort: Sorter, f: Features, bad: Head -> bool)
    requires IsSorter(sort) && Harmless(bad, f) && f.appFeatures
    ensures !ItemHas(AppFeaturesSection(screens, prefs, sort), bad)
  {
    var pinned, others := PinnedScreens(screens, prefs, |screens|), Item("Other Features", "app-features", 999, []);
    PinnedScreensPlain(screens, prefs, |screens|, f, bad);
    SortDeepHas(pinned, sort, bad);
    OneHas(others, bad);
    HasAppend(SortDeep(pinned, sort), [others], bad);
    HasAppend(SortDeep(pinned, sort), [], bad);
  }

  lemma EnsureAppFeaturesWithin(menu: seq<Item>, f: Features, screens: seq<Screen>, prefs: Prefs, sort: Sorter,
                                bad: Head -> bool)
    requires IsSorter(sort) && Harmless(bad, f)
    ensures Has(EnsureAppFeatures(menu, f, screens, prefs, sort), bad) ==>
            Has(menu, bad) && (!f.appFeatures ==> !OnlyPage(bad, "app-features"))
  {
    hide AppFeaturesSection;
    RemovedPage(menu, "app-features", bad);
    if f.appFeatures {
      var section := AppFeaturesSection(screens, prefs, sort);
      AppFeaturesSectionPlain(screens, prefs, sort, f, bad);
      UpdatedHas(menu, "App Features", ReplaceBy(section), bad);
      OneHas(section, bad);
      HasAppend(RemovePage(menu, "app-features"), [section], bad);
    }
  }

  lemma EnsureSettingsWithin(menu: seq<Item>, sort: Sorter, f: Features, bad: Head -> bool)
    requires IsSorter(sort) && Harmless(bad, f)
    ensures Has(EnsureSettings(menu, sort), bad) ==> Has(menu, bad)
  {
    var missing := [Item("App Settings", "app-settings", 10, [])];
    OneHas(missing[0], bad);
    forall it: Item ensures ItemHas(AddAppSettings(sort)(it), bad) ==> ItemHas(it, bad) {
      HasAppend(missing, it.children, bad);
      SortDeepHas(missing + it.children, sort, bad);
      HasAppend([], it.children, bad);
      SortDeepHas([] + it.children, sort, bad);
    }
    UpdatedHas(menu, "Settings", AddAppSettings(sort), bad);
  }

  lemma DocsSectionPlain(sort: Sorter, f: Features, bad: Head -> bool)
    requires IsSorter(sort) && Harmless(bad, f) && f.apiDocs
    ensures !ItemHas(DocsSection(sort), bad)
  {
    var docs := [Item("API Reference", "api-docs", 0, []), Item("BFFX Guide", "bffx-docs", 10, [])];
    assert docs[1..] == [docs[1]];
    OneHas(docs[1], bad);
    SortDeepHas(docs, sort, bad);
  }

  lemma WithDocsWithin(children: seq<Item>, sort: Sorter, f: Features, bad: Head -> bool)
    requires IsSorter(sort) && Harmless(bad, f) && f.apiDocs
    ensures Has(WithDocs(children, sort), bad) ==> Has(children, bad)
  {
    hide DocsSection;
    var once := RemovePage(children, "api-docs");
    var kept := RemovePage(once, "bffx-docs");
    DocsSectionPlain(sort, f, bad);
    RemovedPage(children, "api-docs", bad);
    RemovedPage(once, "bffx-docs", bad);
    UpdatedHas(kept, "Docs", ReplaceBy(DocsSection(sort)), bad);
    OneHas(DocsSection(sort), bad);
    HasAppend(kept, [DocsSection(sort)], bad);
  }

  lemma EnsureDocsWithin(menu: seq<Item>, f: Features, sort: Sorter, bad: Head -> bool)
    requires IsSorter(sort) && Harmless(bad, f)
    ensures Has(EnsureDocs(menu, f, sort), bad) ==>
            Has(menu, bad) && (!f.apiDocs ==> !OnlyPage(bad, "api-docs") && !OnlyPage(bad, "bffx-docs"))
  {
    if !f.apiDocs {
      RemovedPage(menu, "api-docs", bad);
      RemovedPage(RemovePage(menu, "api-docs"), "bffx-docs", bad);
    } else {
      forall it: Item ensures ItemHas(AddDocs(sort)(it), bad) ==> ItemHas(it, bad) {
        WithDocsWithin(it.children, sort, f, bad);
      }
      UpdatedHas(menu, "Settings", AddDocs(sort), bad);
    }
  }

  /** Every head of the pages of a feature that is off. */
  ghost predicate SwitchedOff(bad: Head -> bool, f: Features) {
    || (!f.appFeatures && OnlyPage(bad, "app-features"))
    || (!f.apiDocs && (OnlyPage(bad, "api-docs") || OnlyPage(bad, "bffx-docs")))
  }

  lemma RepairedWithin(menu: seq<Item>, f: Features, rs: seq<Resource>, screens: seq<Screen>, prefs: Prefs,
                       sort: Sorter, bad: Head -> bool)
    requires IsSorter(sort) && Harmless(bad, f)
    ensures Has(Repaired(menu, f, rs, screens, prefs, sort), bad) ==> Has(menu, bad) && !SwitchedOff(bad, f)
  {
    var withResources := EnsureResources(menu, rs, prefs, sort);
    EnsureResourcesWithin(menu, rs, prefs, sort, f, bad);
    var attached := Attach(withResources, rs, sort);
    AttachWithin(withResources, rs, sort, f, bad);
    var pinned := InjectPinned(attached, rs, |rs|, sort);
    InjectPinnedWithin(attached, rs, |rs|, sort, f, bad);
    var withFeatures := EnsureAppFeatures(pinned, f, screens, prefs, sort);
    EnsureAppFeaturesWithin(pinned, f, screens, prefs, sort, bad);
    var withScreens := InjectScreens(withFeatures, screens, prefs, |screens|, sort);
    InjectScreensWithin(withFeatures, screens, prefs, |screens|, sort, f, bad);
    EnsureSettingsWithin(withScreens, sort, f, bad);
    EnsureDocsWithin(EnsureSettings(withScreens, sort), f, sort, bad);
  }

  lemma AppendIf(a: seq<Item>, condition: bool, it: Item, bad: Head -> bool)
    requires !Has(a, bad) && (condition ==> !ItemHas(it, bad))
    ensures !Has(a + If(condition, it), bad)
  {
    HasAppend(a, If(condition, it), bad);
    OneHas(it, bad);
  }

  lemma SettingsSectionPlain(f: Features, sort: Sorter, bad: Head -> bool)
    requires IsSorter(sort) && Harmless(bad, f) && HarmlessDefault(bad, f)
    ensures !ItemHas(SettingsSection(f, sort), bad)
  {
    if f.apiDocs { DocsSectionPlain(sort, f, bad); }
    var start := [Item("App Settings", "app-settings", 10, [])];
    OneHas(start[0], bad);
    AppendIf(start, f.apiDocs, DocsSection(sort), bad);
    SortDeepHas(start + If(f.apiDocs, DocsSection(sort)), sort, bad);
  }

  lemma MonitoringSectionPlain(f: Features, sort: Sorter, bad: Head -> bool)
    requires IsSorter(sort) && HarmlessDefault(bad, f) && f.liveops
    ensures !ItemHas(MonitoringSection(sort), bad)
  {
    var performance := Item("Performance", "performance", 0, []);
    OneHas(performance, bad);
    SortDeepHas([performance], sort, bad);
  }

  lemma DefaultPlain(f: Features, rs: seq<Resource>, screens: seq<Screen>, prefs: Prefs, sort: Sorter,
                     bad: Head -> bool)
    requires IsSorter(sort) && Harmless(bad, f) && HarmlessDefault(bad, f)
    ensures !Has(DefaultMenu(f, rs, screens, prefs, sort), bad)
  {
    hide SettingsSection, MonitoringSection, AppFeaturesSection, ResourceChildren, If;
    var children, user := ResourceChildren(rs, NO_PREFS, sort), UserLabel(rs);
    ResourceChildrenPlain(rs, NO_PREFS, sort, f, bad);
    SettingsSectionPlain(f, sort, bad);
    if f.liveops { MonitoringSectionPlain(f, sort, bad); }
    if f.appFeatures { AppFeaturesSectionPlain(screens, prefs, sort, f, bad); }
    OneHas(Item("Dashboard", "dashboard", 0, []), bad);
    var flags, users :=
      Item("Feature Flags", "feature-flags", 5, []), Item(if user.Some? then user.value else "", "users", 8, []);
    OneHas(flags, bad);
    var m0 := [Item("Dashboard", "dashboard", 0, [])];
    AppendIf(m0, f.featureFlags, flags, bad);
    var m1 := m0 + If(f.featureFlags, flags);
    AppendIf(m1, user.Some?, users, bad);
    var m2 := m1 + If(user.Some?, users);
    AppendIf(m2, f.liveops, MonitoringSection(sort), bad);
    var m3 := m2 + If(f.liveops, MonitoringSection(sort));
    AppendIf(m3, children != [], Item("Resources", "", 80, children), bad);
    var m4 := m3 + If(children != [], Item("Resources", "", 80, children));
    AppendIf(m4, f.appFeatures, AppFeaturesSection(screens, prefs, sort), bad);
    var m5 := m4 + If(f.appFeatures, AppFeaturesSection(screens, prefs, sort));
    OneHas(SettingsSection(f, sort), bad);
    HasAppend(m5, [SettingsSection(f, sort)], bad);
  }

  /** Reconciliation brings in nothing but these heads, and keeps none of a feature that is off. */
  lemma NothingElse(menu: seq<Item>, f: Features, rs: seq<Resource>, screens: seq<Screen>, prefs: Prefs, sort: Sorter,
                    bad: Head -> bool)
    requires IsSorter(sort) && Harmless(bad, f) && (Prune(menu, f) == [] ==> HarmlessDefault(bad, f))
    ensures Has(Reconciled(menu, f, rs, screens, prefs, sort), bad) ==> Has(Prune(menu, f), bad) && !SwitchedOff(bad, f)
  {
    var pruned, rs' := Prune(menu, f), ApplyPrefs(rs, prefs);
    if pruned == [] {
      DefaultPlain(f, rs', screens, prefs, sort, bad);
    } else {
      RepairedWithin(pruned, f, rs', screens, prefs, sort, bad);
    }
    SortDeepHas(if pruned == [] then DefaultMenu(f, rs', screens, prefs, sort)
                else Repaired(pruned, f, rs', screens, prefs, sort), sort, bad);
  }

  // ---------------------------------------------------------------------------
  // Pages and labels of disabled features stay away
  // ---------------------------------------------------------------------------

  predicate Gated(page: string) {
    page == "feature-flags" || page == "app-features" || page == "api-docs" || page == "bffx-docs"
  }

  /** The feature that opens a gated page. */
  predicate Open(f: Features, page: string)
    requires Gated(page)
  {
    if page == "feature-flags" then f.featureFlags else if page == "app-features" then f.appFeatures else f.apiDocs
  }

  lemma GatedIsHarmless(f: Features, page: string)
    requires Gated(page) && !Open(f, page)
    ensures Harmless(PageIs(page), f) && HarmlessDefault(PageIs(page), f)
  {
    forall name ensures page != "resource:" + name && page != "screen:" + name {
      assert ("resource:" + name)[0] == 'r' && ("screen:" + name)[0] == 's';
    }
  }

  /** After reconciliation no item at any depth has a page of a disabled feature. */
  lemma DisabledPagesAreGone(menu: seq<Item>, f: Features, rs: seq<Resource>, screens: seq<Screen>, prefs: Prefs,
                             sort: Sorter, page: string)
    requires IsSorter(sort) && Gated(page) && !Open(f, page)
    ensures !ContainsPage(Reconciled(menu, f, rs, screens, prefs, sort), page)
  {
    ContainsIsHas(Reconciled(menu, f, rs, screens, prefs, sort), page);
    GatedIsHarmless(f, page);
    NothingElse(menu, f, rs, screens, prefs, sort, PageIs(page));
    PrunedHas(menu, f, PageIs(page));
  }

  lemma PrunedHas(menu: seq<Item>, f: Features, bad: Head -> bool)
    ensures Has(Prune(menu, f), bad) ==>
            && Has(menu, bad)
            && (!f.featureFlags ==> !OnlyPage(bad, "feature-flags"))
            && (!f.liveops ==> !OnlyTitle(bad, "Monitoring"))
  {
    var kept := if f.featureFlags then menu else RemovePage(menu, "feature-flags");
    RemovedPage(menu, "feature-flags", bad);
    assert ToLower("Monitoring") == "monitoring";
    RemovedLabel(kept, "Monitoring", bad);
  }

  /** Titled "Monitoring" up to case, and neither a resource, a screen nor the users. */
  predicate StrayMonitoring(h: Head) {
    EqualFold(h.0, "Monitoring") && !("resource:" <= h.1) && !("screen:" <= h.1) && h.1 != "users"
  }

  predicate Monitoring(h: Head) {
    EqualFold(h.0, "Monitoring")
  }

  /** With liveops off nothing at any depth is titled "Monitoring", but for resources, screens and users so named. */
  lemma MonitoringIsGone(menu: seq<Item>, f: Features, rs: seq<Resource>, screens: seq<Screen>, prefs: Prefs,
                         sort: Sorter)
    requires IsSorter(sort) && !f.liveops
    ensures !Has(Prune(menu, f), Monitoring)
    ensures !Has(Reconciled(menu, f, rs, screens, prefs, sort), StrayMonitoring)
  {
    hide Prune, Reconciled, Has, Harmless, HarmlessDefault, EqualFold;
    PrunedHas(menu, f, Monitoring);
    PrunedHas(menu, f, StrayMonitoring);
    StrayIsHarmless(f);
    NothingElse(menu, f, rs, screens, prefs, sort, StrayMonitoring);
  }

  lemma StrayIsHarmless(f: Features)
    requires !f.liveops
    ensures Harmless(StrayMonitoring, f) && HarmlessDefault(StrayMonitoring, f)
  {
    hide EqualFold;
    OtherTitle("Other Resources");
    OtherTitle("App Settings");
    OtherTitle("App Features");
    OtherTitle("Other Features");
    OtherTitle("Docs");
    OtherTitle("API Reference");
    OtherTitle("BFFX Guide");
    OtherTitle("Dashboard");
    OtherTitle("Resources");
    OtherTitle("Settings");
    OtherTitle("Feature Flags");
  }

  lemma OtherTitle(title: string)
    requires title != "" && title[0] != 'm' && title[0] != 'M'
    ensures !EqualFold(title, "Monitoring")
  {
    assert ToLower("Monitoring")[0] == 'm' && ToLower(title)[0] != 'm';
  }

  // ---------------------------------------------------------------------------
  // What pruning keeps
  // ---------------------------------------------------------------------------

  /** Each item of the tree as the chain of items from the top down to it, in the order they are shown. */
  function Chains(items: seq<Item>, above: seq<Item>): seq<seq<Item>>
    decreases items
  {
    if items == [] then []
    else
      var chain := above + [items[0].(children := [])];
      [chain] + Chains(items[0].children, chain) + Chains(items[1..], above)
  }

  predicate Meets(chain: seq<Item>, bad: Item -> bool) {
    exists it <- chain :: bad(it)
  }

  /** The chains that meet nothing bad, in order. */
  function Kept(chains: seq<seq<Item>>, bad: Item -> bool): seq<seq<Item>>
    decreases |chains|
  {
    if chains == [] then []
    else (if Meets(chains[0], bad) then [] else [chains[0]]) + Kept(chains[1..], bad)
  }

  lemma {:induction false} KeptAppend(a: seq<seq<Item>>, b: seq<seq<Item>>, bad: Item -> bool)
    ensures Kept(a + b, bad) == Kept(a, bad) + Kept(b, bad)
    decreases |a|
  {
    if a == [] {
      assert a + b == b;
    } else {
      assert (a + b)[1..] == a[1..] + b;
      KeptAppend(a[1..], b, bad);
    }
  }

  lemma {:induction false} KeptTwice(chains: seq<seq<Item>>, p: Item -> bool, q: Item -> bool, either: Item -> bool)
    requires forall it :: either(it) <==> p(it) || q(it)
    ensures Kept(Kept(chains, p), q) == Kept(chains, either)
    decreases |chains|
  {
    if chains != [] {
      KeptTwice(chains[1..], p, q, either);
      KeptAppend(if Meets(chains[0], p) then [] else [chains[0]], Kept(chains[1..], p), q);
    }
  }

  lemma {:induction false} BelowBad(items: seq<Item>, above: seq<Item>, bad: Item -> bool)
    requires Meets(above, bad)
    ensures Kept(Chains(items, above), bad) == []
    decreases items
  {
    if items != [] {
      var chain := above + [items[0].(children := [])];
      assert forall it :: it in above ==> it in chain;
      BelowBad(items[0].children, chain, bad);
      BelowBad(items[1..], above, bad);
      KeptAppend([chain] + Chains(items[0].children, chain), Chains(items[1..], above), bad);
      KeptAppend([chain], Chains(items[0].children, chain), bad);
    }
  }

  lemma ChainsOf(items: seq<Item>, above: seq<Item>, bad: Item -> bool)
    requires items != []
    ensures var chain := above + [items[0].(children := [])];
            Kept(Chains(items, above), bad) ==
            Kept([chain], bad) + Kept(Chains(items[0].children, chain), bad) + Kept(Chains(items[1..], above), bad)
  {
    var chain := above + [items[0].(children := [])];
    KeptAppend([chain] + Chains(items[0].children, chain), Chains(items[1..], above), bad);
    KeptAppend([chain], Chains(items[0].children, chain), bad);
  }

  lemma MeetsOneMore(above: seq<Item>, it: Item, bad: Item -> bool)
    requires !Meets(above, bad)
    ensures Meets(above + [it], bad) <==> bad(it)
    ensures Kept([above + [it]], bad) == if bad(it) then [] else [above + [it]]
  {
    assert it in above + [it];
  }

  /** A bad first item goes with all below it. */
  lemma FirstGoes(items: seq<Item>, above: seq<Item>, bad: Item -> bool)
    requires items != [] && !Meets(above, bad) && bad(items[0].(children := []))
    ensures Kept(Chains(items, above), bad) == Kept(Chains(items[1..], above), bad)
  {
    hide Meets, Chains;
    var it := items[0].(children := []);
    ChainsOf(items, above, bad);
    MeetsOneMore(above, it, bad);
    BelowBad(items[0].children, above + [it], bad);
  }

  /** Any other stays, with what is kept below it and after it. */
  lemma FirstStays(items: seq<Item>, above: seq<Item>, bad: Item -> bool, children: seq<Item>, rest: seq<Item>)
    requires items != [] && !Meets(above, bad) && !bad(items[0].(children := []))
    requires var chain := above + [items[0].(children := [])];
             Chains(children, chain) == Kept(Chains(items[0].children, chain), bad)
    requires Chains(rest, above) == Kept(Chains(items[1..], above), bad)
    ensures Chains([items[0].(children := children)] + rest, above) == Kept(Chains(items, above), bad)
  {
    hide Meets, Kept;
    var it := items[0].(children := []);
    ChainsOf(items, above, bad);
    MeetsOneMore(above, it, bad);
    var kept := [items[0].(children := children)] + rest;
    assert kept[0].(children := []) == it && kept[1..] == rest;
  }

  lemma {:induction false} RemovePageKeeps(items: seq<Item>, page: string, above: seq<Item>, bad: Item -> bool)
    requires !Meets(above, bad) && forall it: Item :: bad(it) <==> it.page == page
    ensures Chains(RemovePage(items, page), above) == Kept(Chains(items, above), bad)
    decreases items
  {
    if items != [] {
      hide Meets, Kept, Chains;
      var it := items[0].(children := []);
      RemovePageKeeps(items[1..], page, above, bad);
      if it.page == page {
        FirstGoes(items, above, bad);
      } else {
        MeetsOneMore(above, it, bad);
        RemovePageKeeps(items[0].children, page, above + [it], bad);
        FirstStays(items, above, bad, RemovePage(items[0].children, page), RemovePage(items[1..], page));
      }
    }
  }

  lemma {:induction false} RemoveLabelKeeps(items: seq<Item>, title: string, above: seq<Item>, bad: Item -> bool)
    requires !Meets(above, bad) && forall it: Item :: bad(it) <==> EqualFold(it.title, title)
    ensures Chains(RemoveLabel(items, ToLower(title)), above) == Kept(Chains(items, above), bad)
    decreases items
  {
    hide ToLower;
    if items != [] {
      hide Meets, Kept, Chains;
      var it, lower := items[0].(children := []), ToLower(title);
      RemoveLabelKeeps(items[1..], title, above, bad);
      if ToLower(it.title) == lower {
        FirstGoes(items, above, bad);
      } else {
        MeetsOneMore(above, it, bad);
        RemoveLabelKeeps(items[0].children, title, above + [it], bad);
        FirstStays(items, above, bad, RemoveLabel(items[0].children, lower), RemoveLabel(items[1..], lower));
      }
    }
  }

  /** The page of the feature flags, or the label of monitoring, while they are off. */
  function Disabled(f: Features): Item -> bool {
    (it: Item) => (!f.featureFlags && it.page == "feature-flags") || (!f.liveops && EqualFold(it.title, "Monitoring"))
  }

  /** Pruning keeps exactly the items that are not disabled and lie under none that is, in order. */
  lemma PruneKeeps(menu: seq<Item>, f: Features)
    ensures Chains(Prune(menu, f), []) == Kept(Chains(menu, []), Disabled(f))
    ensures f.featureFlags && f.liveops ==> Prune(menu, f) == menu
  {
    hide EqualFold, RemovePage, RemoveLabel;
    assert ToLower("Monitoring") == "monitoring";
    var flags: Item -> bool := (it: Item) => !f.featureFlags && it.page == "feature-flags";
    var monitoring: Item -> bool := (it: Item) => !f.liveops && EqualFold(it.title, "Monitoring");
    var kept := if f.featureFlags then menu else RemovePage(menu, "feature-flags");
    if f.featureFlags { NothingBad(Chains(menu, []), flags); }
    else { RemovePageKeeps(menu, "feature-flags", [], flags); }
    if f.liveops { NothingBad(Chains(kept, []), monitoring); }
    else { RemoveLabelKeeps(kept, "Monitoring", [], monitoring); }
    KeptTwice(Chains(menu, []), flags, monitoring, Disabled(f));
  }

  lemma {:induction false} NothingBad(chains: seq<seq<Item>>, bad: Item -> bool)
    requires forall it :: !bad(it)
    ensures Kept(chains, bad) == chains
    decreases |chains|
  {
    if chains != [] { NothingBad(chains[1..], bad); }
  }

  // ---------------------------------------------------------------------------
  // Every sibling list is ordered
  // ---------------------------------------------------------------------------

  lemma {:induction false} SortDeepIsSorted(items: seq<Item>, sort: Sorter)
    requires IsSorter(sort)
    ensures SortedDeep(SortDeep(items, sort))
    decreases items, 1
  {
    if items != [] {
      ChildrenSortedAreSorted(items, sort);
      SortMembers(ChildrenSorted(items, sort), sort);
    }
  }

  lemma {:induction false} ChildrenSortedAreSorted(items: seq<Item>, sort: Sorter)
    requires IsSorter(sort)
    ensures forall it :: it in ChildrenSorted(items, sort) ==> SortedDeep(it.children)
    decreases items, 0
  {
    if items != [] {
      SortDeepIsSorted(items[0].children, sort);
      ChildrenSortedAreSorted(items[1..], sort);
    }
  }

  lemma ReconciledIsSorted(menu: seq<Item>, f: Features, rs: seq<Resource>, screens: seq<Screen>, prefs: Prefs,
                           sort: Sorter)
    requires IsSorter(sort)
    ensures SortedDeep(Reconciled(menu, f, rs, screens, prefs, sort))
  {
    var pruned, rs' := Prune(menu, f), ApplyPrefs(rs, prefs);
    SortDeepIsSorted(if pruned == [] then DefaultMenu(f, rs', screens, prefs, sort)
                     else Repaired(pruned, f, rs', screens, prefs, sort), sort);
  }

  /** Siblings rise by priority, and where that is equal by title, at every depth. */
  ghost predicate InOrder(items: seq<Item>)
    decreases items
  {
    && (forall i, j :: 0 <= i < j < |items| ==>
          && items[i].priority <= items[j].priority
          && (items[i].priority == items[j].priority ==> !Less(items[j].title, items[i].title)))
    && forall it :: it in items ==> InOrder(it.children)
  }

  lemma {:induction false} SortedIsInOrder(items: seq<Item>)
    requires SortedDeep(items)
    ensures InOrder(items)
    decreases items
  {
    hide Less;
    forall it | it in items ensures InOrder(it.children) { SortedIsInOrder(it.children); }
  }

  // ---------------------------------------------------------------------------
  // The resources group
  // ---------------------------------------------------------------------------

  /** Every item of `a` has a counterpart in `b` with its title and page and at least its child pages. */
  ghost predicate Covers(a: seq<Item>, b: seq<Item>) {
    forall it :: it in a ==> exists it' :: it' in b && CoveredBy(it, it')
  }

  ghost predicate CoveredBy(it: Item, it': Item) {
    it'.title == it.title && it'.page == it.page && PagesOf(it.children) <= PagesOf(it'.children)
  }

  lemma CoversTransitive(a: seq<Item>, b: seq<Item>, c: seq<Item>)
    requires Covers(a, b) && Covers(b, c)
    ensures Covers(a, c)
  {
    forall it | it in a ensures exists it' :: it' in c && CoveredBy(it, it') {
      var m :| m in b && CoveredBy(it, m);
      var it' :| it' in c && CoveredBy(m, it');
      assert CoveredBy(it, it');
    }
  }

  lemma CoversPages(a: seq<Item>, b: seq<Item>)
    requires Covers(a, b)
    ensures PagesOf(a) <= PagesOf(b)
  {
    forall page | page in PagesOf(a) ensures page in PagesOf(b) {
      var it :| it in a && it.page == page;
      var it' :| it' in b && CoveredBy(it, it');
      assert it' in b && it'.page == page;
    }
  }

  lemma CoversSelf(a: seq<Item>, b: seq<Item>)
    requires forall it :: it in a ==> it in b
    ensures Covers(a, b)
  {
    forall it | it in a ensures exists it' :: it' in b && CoveredBy(it, it') { assert CoveredBy(it, it); }
  }

  lemma CoversCons(first: Item, first': Item, a: seq<Item>, b: seq<Item>)
    requires CoveredBy(first, first') && Covers(a, b)
    ensures Covers([first] + a, [first'] + b)
  {
    forall it | it in [first] + a ensures exists it' :: it' in [first'] + b && CoveredBy(it, it') {
      if it in a {
        var it' :| it' in b && CoveredBy(it, it');
        assert it' in [first'] + b;
      } else {
        assert first' in [first'] + b;
      }
    }
  }

  ghost predicate IsGroup(it: Item, title: string, need: set<string>) {
    it.title == title && it.page == "" && need <= PagesOf(it.children)
  }

  /** A top-level item of the title without a page, with at least these pages right below it. */
  ghost predicate HasGroup(menu: seq<Item>, title: string, need: set<string>) {
    exists it :: it in menu && IsGroup(it, title, need)
  }

  lemma GroupCovered(a: seq<Item>, b: seq<Item>, title: string, need: set<string>)
    requires HasGroup(a, title, need) && Covers(a, b)
    ensures HasGroup(b, title, need)
  {
    var it :| it in a && IsGroup(it, title, need);
    var it' :| it' in b && CoveredBy(it, it');
    assert IsGroup(it', title, need);
  }

  lemma {:induction false} SortDeepCovers(items: seq<Item>, sort: Sorter)
    requires IsSorter(sort)
    ensures Covers(items, SortDeep(items, sort)) && PagesOf(SortDeep(items, sort)) == PagesOf(items)
    decreases items, 1
  {
    if items != [] {
      ChildrenSortedCovers(items, sort);
      var inner := ChildrenSorted(items, sort);
      SortMembers(inner, sort);
      CoversSelf(inner, SortDeep(items, sort));
      CoversTransitive(items, inner, SortDeep(items, sort));
    }
  }

  lemma {:induction false} ChildrenSortedCovers(items: seq<Item>, sort: Sorter)
    requires IsSorter(sort)
    ensures Covers(items, ChildrenSorted(items, sort)) && PagesOf(ChildrenSorted(items, sort)) == PagesOf(items)
    decreases items, 0
  {
    if items != [] {
      SortDeepCovers(items[0].children, sort);
      ChildrenSortedCovers(items[1..], sort);
      var first' := items[0].(children := SortDeep(items[0].children, sort));
      CoversCons(items[0], first', items[1..], ChildrenSorted(items[1..], sort));
      assert items == [items[0]] + items[1..];
      PagesCons(items[0], items[1..]);
      PagesCons(first', ChildrenSorted(items[1..], sort));
    }
  }

  lemma PagesCons(it: Item, rest: seq<Item>)
    ensures PagesOf([it] + rest) == {it.page} + PagesOf(rest)
  {
    forall page ensures page in PagesOf([it] + rest) <==> page in {it.page} + PagesOf(rest) {
      assert it in [it] + rest;
      if x :| x in rest && x.page == page { assert x in [it] + rest; }
    }
  }

  lemma AppendCovers(a: seq<Item>, b: seq<Item>)
    ensures Covers(a, a + b)
  {
    CoversSelf(a, a + b);
  }

  lemma {:induction false} AttachResourcesCovers(children: seq<Item>, title: string, rs: seq<Resource>, n: nat)
    requires n <= |rs|
    ensures forall it :: it in children ==> it in AttachResources(children, title, rs, n)
  {
    if n > 0 { AttachResourcesCovers(children, title, rs, n - 1); }
  }

  lemma {:induction false} AttachItemCovers(it: Item, rs: seq<Resource>, sort: Sorter)
    requires IsSorter(sort)
    ensures CoveredBy(it, AttachItem(it, rs, sort))
    decreases it, 1
  {
    AttachCovers(it.children, rs, sort);
    var children := Attach(it.children, rs, sort);
    var more := AttachResources(children, it.title, rs, |rs|);
    AttachResourcesCovers(children, it.title, rs, |rs|);
    CoversPages(it.children, children);
    CoversSelf(children, more);
    CoversPages(children, more);
    SortDeepCovers(more, sort);
  }

  lemma {:induction false} AttachCovers(items: seq<Item>, rs: seq<Resource>, sort: Sorter)
    requires IsSorter(sort)
    ensures Covers(items, Attach(items, rs, sort))
    decreases items, 0
  {
    if items != [] {
      AttachItemCovers(items[0], rs, sort);
      AttachCovers(items[1..], rs, sort);
      CoversCons(items[0], AttachItem(items[0], rs, sort), items[1..], Attach(items[1..], rs, sort));
      assert items == [items[0]] + items[1..];
    }
  }

  lemma {:induction false} InjectChildCovers(items: seq<Item>, lower: string, child: Item, sort: Sorter)
    requires IsSorter(sort) && InjectChild(items, lower, child, sort).Some?
    ensures Covers(items, InjectChild(items, lower, child, sort).value)
    decreases items
  {
    var result := InjectChild(items, lower, child, sort).value;
    assert items == [items[0]] + items[1..];
    CoversSelf(items[1..], items[1..]);
    if ToLower(items[0].title) == lower {
      if ContainsPage(items[0].children, child.page) {
        CoversSelf(items, items);
      } else {
        AppendCovers(items[0].children, [child]);
        CoversPages(items[0].children, items[0].children + [child]);
        SortDeepCovers(items[0].children + [child], sort);
        CoversCons(items[0], result[0], items[1..], items[1..]);
      }
    } else if InjectChild(items[0].children, lower, child, sort).Some? {
      InjectChildCovers(items[0].children, lower, child, sort);
      CoversPages(items[0].children, InjectChild(items[0].children, lower, child, sort).value);
      CoversCons(items[0], result[0], items[1..], items[1..]);
    } else {
      InjectChildCovers(items[1..], lower, child, sort);
      CoversCons(items[0], items[0], items[1..], result[1..]);
    }
  }

  lemma InjectCovers(menu: seq<Item>, lower: string, child: Item, sort: Sorter)
    requires IsSorter(sort)
    ensures Covers(menu, Inject(menu, lower, child, sort))
  {
    hide Covers;
    if ContainsPage(menu, child.page) {
      CoversSelf(menu, menu);
    } else if InjectChild(menu, lower, child, sort).Some? {
      InjectChildCovers(menu, lower, child, sort);
    } else {
      AppendCovers(menu, [child]);
    }
  }

  lemma {:induction false} InjectPinnedCovers(menu: seq<Item>, rs: seq<Resource>, n: nat, sort: Sorter)
    requires IsSorter(sort) && n <= |rs|
    ensures Covers(menu, InjectPinned(menu, rs, n, sort))
  {
    hide Covers;
    if n == 0 {
      CoversSelf(menu, menu);
    } else {
      var before := InjectPinned(menu, rs, n - 1, sort);
      InjectPinnedCovers(menu, rs, n - 1, sort);
      InjectCovers(before, "resources", ResourceItem(rs[n - 1]), sort);
      CoversTransitive(menu, before, Inject(before, "resources", ResourceItem(rs[n - 1]), sort));
    }
  }

  lemma {:induction false} InjectScreensCovers(menu: seq<Item>, screens: seq<Screen>, prefs: Prefs, n: nat,
                                               sort: Sorter)
    requires IsSorter(sort) && n <= |screens|
    ensures Covers(menu, InjectScreens(menu, screens, prefs, n, sort))
  {
    hide Covers;
    if n == 0 {
      CoversSelf(menu, menu);
    } else {
      var before, s := InjectScreens(menu, screens, prefs, n - 1, sort), screens[n - 1];
      var child := Item(s.name, ScreenPage(s), 100, []);
      InjectScreensCovers(menu, screens, prefs, n - 1, sort);
      InjectCovers(before, "app features", child, sort);
      CoversTransitive(menu, before, Inject(before, "app features", child, sort));
    }
  }

  lemma {:induction false} UpdateKeepsOthers(menu: seq<Item>, title: string, change: Item -> Item, it: Item)
    requires it in menu && it.title != title
    ensures it in UpdateFirst(menu, title, change)
    decreases |menu|
  {
    if menu[0].title != title && it != menu[0] {
      UpdateKeepsOthers(menu[1..], title, change, it);
    }
  }

  lemma UpdateKeepsGroup(menu: seq<Item>, title: string, change: Item -> Item, group: string, need: set<string>)
    requires title != group && HasGroup(menu, group, need)
    ensures HasGroup(UpdateFirst(menu, title, change), group, need)
  {
    var it :| it in menu && IsGroup(it, group, need);
    UpdateKeepsOthers(menu, title, change, it);
  }

  lemma {:induction false} RemovePageKeepsItem(items: seq<Item>, page: string, it: Item)
    requires it in items && it.page != page
    ensures it.(children := RemovePage(it.children, page)) in RemovePage(items, page)
    decreases |items|
  {
    if it != items[0] { RemovePageKeepsItem(items[1..], page, it); }
  }

  lemma RemovePageKeepsGroup(menu: seq<Item>, page: string, title: string, need: set<string>)
    requires page != "" && page !in need && HasGroup(menu, title, need)
    ensures HasGroup(RemovePage(menu, page), title, need)
  {
    var it :| it in menu && IsGroup(it, title, need);
    var it' := it.(children := RemovePage(it.children, page));
    RemovePageKeepsItem(menu, page, it);
    forall p | p in need ensures p in PagesOf(it'.children) {
      var c :| c in it.children && c.page == p;
      RemovePageKeepsItem(it.children, page, c);
    }
    assert IsGroup(it', title, need);
  }

  /** The pages of the visible pinned resources other than users; preferences override the manifest's pin. */
  function NeededPages(rs: seq<Resource>, prefs: Prefs): set<string> {
    set r | r in rs && Listed(r) && ResourcePinned(prefs, r.name, r.pin) :: ResourcePage(r)
  }

  lemma {:induction false} PinnedPages(rs: seq<Resource>, prefs: Prefs, n: nat, i: nat)
    requires i < n <= |rs| && Listed(rs[i]) && (rs[i].pin || ResourcePinned(prefs, rs[i].name, false))
    ensures ResourcePage(rs[i]) in PagesOf(PinnedItems(rs, prefs, n))
    decreases n
  {
    var all := PinnedItems(rs, prefs, n);
    if i == n - 1 {
      assert ResourceItem(rs[i]) in all;
    } else {
      PinnedPages(rs, prefs, n - 1, i);
      var it :| it in PinnedItems(rs, prefs, n - 1) && it.page == ResourcePage(rs[i]);
      assert it in all;
    }
  }

  /** Both the repair (with preferences) and the default menu (without) list every needed page. */
  lemma ResourceChildrenHave(rs: seq<Resource>, prefs: Prefs, used: Prefs, sort: Sorter)
    requires IsSorter(sort) && (used == prefs || used == NO_PREFS)
    ensures NeededPages(rs, prefs) <= PagesOf(ResourceChildren(ApplyPrefs(rs, prefs), used, sort))
  {
    var rs' := ApplyPrefs(rs, prefs);
    var pinned := PinnedItems(rs', used, |rs'|);
    SortDeepCovers(pinned, sort);
    forall page | page in NeededPages(rs, prefs)
      ensures page in PagesOf(ResourceChildren(rs', used, sort))
    {
      var r :| r in rs && Listed(r) && ResourcePinned(prefs, r.name, r.pin) && ResourcePage(r) == page;
      var i :| 0 <= i < |rs| && rs[i] == r;
      assert rs'[i] == WithPrefs(r, prefs) && rs'[i].pin;
      PinnedPages(rs', used, |rs'|, i);
      var it :| it in SortDeep(pinned, sort) && it.page == page;
      assert it in ResourceChildren(rs', used, sort);
    }
  }

  lemma {:induction false} NewByPageHas(seen: set<string>, injected: seq<Item>, page: string)
    requires page in PagesOf(injected) && page != ""
    ensures page in seen || page in PagesOf(NewByPage(seen, injected))
    decreases |injected|
  {
    var first, rest := injected[0], injected[1..];
    assert injected == [first] + rest;
    PagesCons(first, rest);
    if first.page != "" && first.page in seen {
      if page != first.page { NewByPageHas(seen, rest, page); }
    } else {
      PagesCons(first, NewByPage(seen + {first.page}, rest));
      if page != first.page { NewByPageHas(seen + {first.page}, rest, page); }
    }
  }

  lemma MergedHas(existing: seq<Item>, injected: seq<Item>, sort: Sorter, page: string)
    requires IsSorter(sort) && page in PagesOf(injected) && page != ""
    ensures page in PagesOf(MergeByPage(existing, injected, sort))
  {
    var added := NewByPage(PagesOf(existing), injected);
    NewByPageHas(PagesOf(existing), injected, page);
    SortDeepCovers(existing + added, sort);
    if page in PagesOf(existing) {
      var it :| it in existing && it.page == page;
      assert it in existing + added;
    } else {
      var it :| it in added && it.page == page;
      assert it in existing + added;
    }
  }

  /** The first top-level item titled "Resources". */
  function FirstGroup(menu: seq<Item>): Option<Item> {
    if menu == [] then None else if menu[0].title == "Resources" then Some(menu[0]) else FirstGroup(menu[1..])
  }

  ghost predicate PagelessGroup(menu: seq<Item>) {
    FirstGroup(menu).Some? && FirstGroup(menu).value.page == ""
  }

  lemma {:induction false} UpdateFindsGroup(menu: seq<Item>, change: Item -> Item)
    requires FirstGroup(menu).Some?
    ensures change(FirstGroup(menu).value) in UpdateFirst(menu, "Resources", change)
    decreases |menu|
  {
    if menu[0].title != "Resources" { UpdateFindsGroup(menu[1..], change); }
  }

  lemma {:induction false} GroupIsTitled(menu: seq<Item>)
    requires FirstGroup(menu).Some?
    ensures FirstGroup(menu).value in menu && FirstGroup(menu).value.title == "Resources"
    decreases |menu|
  {
    if menu[0].title != "Resources" { GroupIsTitled(menu[1..]); }
  }

  lemma EnsureResourcesMakesGroup(menu: seq<Item>, rs: seq<Resource>, prefs: Prefs, sort: Sorter)
    requires IsSorter(sort) && PagelessGroup(menu)
    ensures HasGroup(EnsureResources(menu, ApplyPrefs(rs, prefs), prefs, sort), "Resources", NeededPages(rs, prefs))
  {
    var children := ResourceChildren(ApplyPrefs(rs, prefs), prefs, sort);
    var need := NeededPages(rs, prefs);
    var group := FirstGroup(menu).value;
    ResourceChildrenHave(rs, prefs, prefs, sort);
    GroupIsTitled(menu);
    if children == [] {
      assert IsGroup(group, "Resources", need);
    } else {
      UpdateFindsGroup(menu, MergeInto(children, sort));
      var changed := MergeInto(children, sort)(group);
      forall page | page in need ensures page in PagesOf(changed.children) {
        assert page != "";
        MergedHas(group.children, children, sort, page);
      }
      assert IsGroup(changed, "Resources", need);
    }
  }

  lemma NeededIsNotGated(rs: seq<Resource>, prefs: Prefs, page: string)
    requires page in NeededPages(rs, prefs)
    ensures !Gated(page)
  {
    var r :| r in rs && ResourcePage(r) == page;
    assert page[0] == 'r';
  }

  lemma RepairedKeepsGroup(menu: seq<Item>, f: Features, rs: seq<Resource>, screens: seq<Screen>, prefs: Prefs,
                           sort: Sorter)
    requires IsSorter(sort) && PagelessGroup(menu)
    ensures HasGroup(Repaired(menu, f, ApplyPrefs(rs, prefs), screens, prefs, sort), "Resources",
            NeededPages(rs, prefs))
  {
    var rs', need := ApplyPrefs(rs, prefs), NeededPages(rs, prefs);
    forall page | page in need ensures !Gated(page) { NeededIsNotGated(rs, prefs, page); }
    var withResources := EnsureResources(menu, rs', prefs, sort);
    EnsureResourcesMakesGroup(menu, rs, prefs, sort);
    var attached := Attach(withResources, rs', sort);
    AttachCovers(withResources, rs', sort);
    GroupCovered(withResources, attached, "Resources", need);
    var pinned := InjectPinned(attached, rs', |rs'|, sort);
    InjectPinnedCovers(attached, rs', |rs'|, sort);
    GroupCovered(attached, pinned, "Resources", need);
    var withFeatures := EnsureAppFeatures(pinned, f, screens, prefs, sort);
    EnsureAppFeaturesKeepsGroup(pinned, f, screens, prefs, sort, "Resources", need);
    var withScreens := InjectScreens(withFeatures, screens, prefs, |screens|, sort);
    InjectScreensCovers(withFeatures, screens, prefs, |screens|, sort);
    GroupCovered(withFeatures, withScreens, "Resources", need);
    UpdateKeepsGroup(withScreens, "Settings", AddAppSettings(sort), "Resources", need);
    EnsureDocsKeepsGroup(EnsureSettings(withScreens, sort), f, sort, "Resources", need);
  }

  lemma EnsureAppFeaturesKeepsGroup(menu: seq<Item>, f: Features, screens: seq<Screen>, prefs: Prefs, sort: Sorter,
                                    title: string, need: set<string>)
    requires title != "App Features" && HasGroup(menu, title, need) && forall page :: page in need ==> !Gated(page)
    ensures HasGroup(EnsureAppFeatures(menu, f, screens, prefs, sort), title, need)
  {
    RemovePageKeepsGroup(menu, "app-features", title, need);
    if f.appFeatures {
      var section := AppFeaturesSection(screens, prefs, sort);
      UpdateKeepsGroup(menu, "App Features", ReplaceBy(section), title, need);
      AppendCovers(RemovePage(menu, "app-features"), [section]);
      GroupCovered(RemovePage(menu, "app-features"), RemovePage(menu, "app-features") + [section], title, need);
    }
  }

  lemma EnsureDocsKeepsGroup(menu: seq<Item>, f: Features, sort: Sorter, title: string, need: set<string>)
    requires title != "Settings" && HasGroup(menu, title, need) && forall page :: page in need ==> !Gated(page)
    ensures HasGroup(EnsureDocs(menu, f, sort), title, need)
  {
    if f.apiDocs {
      UpdateKeepsGroup(menu, "Settings", AddDocs(sort), title, need);
    } else {
      RemovePageKeepsGroup(menu, "api-docs", title, need);
      RemovePageKeepsGroup(RemovePage(menu, "api-docs"), "bffx-docs", title, need);
    }
  }

  lemma {:induction false} RemovePageKeepsFirst(menu: seq<Item>, page: string)
    requires PagelessGroup(menu) && page != ""
    ensures PagelessGroup(RemovePage(menu, page))
    decreases |menu|
  {
    if menu[0].title != "Resources" { RemovePageKeepsFirst(menu[1..], page); }
    if menu[0].page != page {
      assert RemovePage(menu, page)[1..] == RemovePage(menu[1..], page);
    }
  }

  lemma {:induction false} RemoveLabelKeepsFirst(menu: seq<Item>, lower: string)
    requires PagelessGroup(menu) && lower != ToLower("Resources")
    ensures PagelessGroup(RemoveLabel(menu, lower))
    decreases |menu|
  {
    if menu[0].title != "Resources" { RemoveLabelKeepsFirst(menu[1..], lower); }
    if ToLower(menu[0].title) != lower {
      assert RemoveLabel(menu, lower)[1..] == RemoveLabel(menu[1..], lower);
    }
  }

  /** Pruning takes no plain group away, so a menu that starts with one has it left. */
  lemma PrunedKeepsFirst(menu: seq<Item>, f: Features)
    requires PagelessGroup(menu)
    ensures PagelessGroup(Prune(menu, f)) && Prune(menu, f) != []
  {
    var kept := if f.featureFlags then menu else RemovePage(menu, "feature-flags");
    RemovePageKeepsFirst(menu, "feature-flags");
    assert ToLower("Resources")[0] == 'r' && "monitoring"[0] == 'm';
    RemoveLabelKeepsFirst(kept, "monitoring");
  }

  lemma DefaultHasGroup(f: Features, rs: seq<Resource>, screens: seq<Screen>, prefs: Prefs, sort: Sorter)
    requires IsSorter(sort) && NeededPages(rs, prefs) != {}
    ensures HasGroup(DefaultMenu(f, ApplyPrefs(rs, prefs), screens, prefs, sort), "Resources", NeededPages(rs, prefs))
  {
    hide SettingsSection, MonitoringSection, AppFeaturesSection, ResourceChildren, NeededPages;
    var rs' := ApplyPrefs(rs, prefs);
    var children := ResourceChildren(rs', NO_PREFS, sort);
    ResourceChildrenHave(rs, prefs, NO_PREFS, sort);
    var page :| page in NeededPages(rs, prefs);
    assert page in PagesOf(children);
    var group := Item("Resources", "", 80, children);
    assert If(children != [], group) == [group];
    var menu := DefaultMenu(f, rs', screens, prefs, sort);
    assert group in menu;
    assert IsGroup(group, "Resources", NeededPages(rs, prefs));
  }

  /** If pruning leaves nothing, or a menu whose first top-level "Resources" item is a plain group, the
      reconciled menu has a top-level "Resources" group with every visible pinned non-user resource in it. */
  lemma PinnedResourcesAreListed(menu: seq<Item>, f: Features, rs: seq<Resource>, screens: seq<Screen>, prefs: Prefs,
                                 sort: Sorter)
    requires IsSorter(sort) && NeededPages(rs, prefs) != {}
    requires Prune(menu, f) == [] || PagelessGroup(Prune(menu, f))
    ensures HasGroup(Reconciled(menu, f, rs, screens, prefs, sort), "Resources", NeededPages(rs, prefs))
  {
    var pruned, rs', need := Prune(menu, f), ApplyPrefs(rs, prefs), NeededPages(rs, prefs);
    if pruned == [] {
      DefaultHasGroup(f, rs, screens, prefs, sort);
    } else {
      RepairedKeepsGroup(pruned, f, rs, screens, prefs, sort);
    }
    var before := if pruned == [] then DefaultMenu(f, rs', screens, prefs, sort)
                  else Repaired(pruned, f, rs', screens, prefs, sort);
    SortDeepCovers(before, sort);
    GroupCovered(before, SortDeep(before, sort), "Resources", need);
  }

  /** Which pages are needed, read off the resources and the preferences. */
  lemma NeededIff(rs: seq<Resource>, prefs: Prefs, page: string)
    ensures page in NeededPages(rs, prefs) <==>
            exists r ::
              && r in rs && page == "resource:" + r.name
              && r.enabled != Some(false) && ToLower(r.name) != "user" && !("bffx_" <= ToLower(r.name))
              && ToLower(r.name) !in {"feature_flag", "feature_flags", "featureflag", "featureflags", "audit_log",
                   "audit_logs", "auditlog", "auditlogs", "incident", "incidents", "admin_user", "admin_users",
                   "adminuser", "adminusers"}
              && (if r.name in prefs.resources then prefs.resources[r.name] else r.pin)
  {
    hide ToLower;
  }

  // ---------------------------------------------------------------------------
  // Pinned screens, documentation and attached resources
  // ---------------------------------------------------------------------------

  function ScreenPages(screens: seq<Screen>, prefs: Prefs): set<string> {
    set s | s in screens && PinnedScreen(s, prefs) :: "screen:" + s.name
  }

  predicate PinnedScreen(s: Screen, prefs: Prefs) {
    "screen:" + s.name in prefs.features && prefs.features["screen:" + s.name]
  }

  lemma {:induction false} PinnedScreensAre(screens: seq<Screen>, prefs: Prefs, n: nat)
    requires n <= |screens|
    ensures PagesOf(PinnedScreens(screens, prefs, n)) == ScreenPages(screens[..n], prefs)
  {
    hide ScreenPages, PagesOf;
    if n == 0 {
      NoPages(prefs);
    } else {
      var before, s := PinnedScreens(screens, prefs, n - 1), screens[n - 1];
      PinnedScreensAre(screens, prefs, n - 1);
      assert screens[..n] == screens[..n - 1] + [s];
      var it := Item(if s.displayName == "" then s.name else s.displayName, ScreenPage(s), 100, []);
      OneMorePage(before, it);
      OneMoreScreen(screens[..n - 1], s, prefs);
      assert before + [] == before;
    }
  }

  lemma NoPages(prefs: Prefs)
    ensures PagesOf([]) == {} && ScreenPages([], prefs) == {}
  {}

  lemma OneMorePage(items: seq<Item>, it: Item)
    ensures PagesOf(items + [it]) == PagesOf(items) + {it.page}
  {
    forall page ensures page in PagesOf(items + [it]) <==> page in PagesOf(items) + {it.page} {
      assert it in items + [it];
      if x :| x in items && x.page == page { assert x in items + [it]; }
    }
  }

  lemma OneMoreScreen(screens: seq<Screen>, s: Screen, prefs: Prefs)
    ensures ScreenPages(screens + [s], prefs) ==
            ScreenPages(screens, prefs) + if PinnedScreen(s, prefs) then {ScreenPage(s)} else {}
  {
    assert s in screens + [s];
    forall x | x in screens ensures x in screens + [s] {}
  }

  lemma {:induction false} PinnedCount(screens: seq<Screen>, prefs: Prefs, n: nat)
    requires n <= |screens|
    ensures |PinnedScreens(screens, prefs, n)| <= n
    ensures |PinnedScreens(screens, prefs, n)| == n <==> forall i :: 0 <= i < n ==> PinnedScreen(screens[i], prefs)
  {
    if n > 0 { PinnedCount(screens, prefs, n - 1); }
  }

  /** The section has the pinned screens' pages, and "Other Features" when one is not pinned or none is. */
  lemma AppFeaturesSectionPages(screens: seq<Screen>, prefs: Prefs, sort: Sorter)
    requires IsSorter(sort)
    ensures var section := AppFeaturesSection(screens, prefs, sort);
            && section.title == "App Features" && section.page == ""
            && PagesOf(section.children) == ScreenPages(screens, prefs) +
                 if screens != [] && forall i :: 0 <= i < |screens| ==> PinnedScreen(screens[i], prefs) then {}
                 else {"app-features"}
  {
    hide ScreenPages, PagesOf, PinnedScreens, SortDeep;
    var pinned := PinnedScreens(screens, prefs, |screens|);
    PinnedScreensAre(screens, prefs, |screens|);
    PinnedCount(screens, prefs, |screens|);
    assert screens[..|screens|] == screens;
    SortDeepPages(pinned, sort);
    OneMorePage(SortDeep(pinned, sort), Item("Other Features", "app-features", 999, []));
    assert SortDeep(pinned, sort) + [] == SortDeep(pinned, sort);
  }

  lemma SortDeepPages(items: seq<Item>, sort: Sorter)
    requires IsSorter(sort)
    ensures PagesOf(SortDeep(items, sort)) == PagesOf(items) && |SortDeep(items, sort)| == |items|
  {
    if items != [] {
      ChildrenSortedPages(items, sort);
      SortMembers(ChildrenSorted(items, sort), sort);
    }
  }

  lemma {:induction false} ChildrenSortedPages(items: seq<Item>, sort: Sorter)
    ensures PagesOf(ChildrenSorted(items, sort)) == PagesOf(items) && |ChildrenSorted(items, sort)| == |items|
    decreases |items|
  {
    hide SortDeep;
    if items != [] {
      ChildrenSortedPages(items[1..], sort);
      PagesCons(items[0].(children := SortDeep(items[0].children, sort)), ChildrenSorted(items[1..], sort));
      PagesCons(items[0], items[1..]);
      assert items == [items[0]] + items[1..];
    }
  }

  lemma EnsureAppFeaturesMakesGroup(menu: seq<Item>, f: Features, screens: seq<Screen>, prefs: Prefs, sort: Sorter)
    requires IsSorter(sort) && f.appFeatures
    ensures HasGroup(EnsureAppFeatures(menu, f, screens, prefs, sort), "App Features", ScreenPages(screens, prefs))
  {
    hide AppFeaturesSection, ScreenPages, PagesOf;
    var section := AppFeaturesSection(screens, prefs, sort);
    AppFeaturesSectionPages(screens, prefs, sort);
    assert IsGroup(section, "App Features", ScreenPages(screens, prefs));
    if HasLabel(menu, "App Features") { UpdateMakes(menu, "App Features", ReplaceBy(section), section); }
  }

  lemma {:induction false} UpdateMakes(menu: seq<Item>, title: string, change: Item -> Item, made: Item)
    requires HasLabel(menu, title) && forall it :: it in menu && it.title == title ==> change(it) == made
    ensures made in UpdateFirst(menu, title, change)
    decreases |menu|
  {
    if menu[0].title != title { UpdateMakes(menu[1..], title, change, made); }
  }

  lemma ScreenIsNotGated(screens: seq<Screen>, prefs: Prefs, page: string)
    requires page in ScreenPages(screens, prefs)
    ensures !Gated(page)
  {
    assert page[0] == 's';
  }

  /** With app features on, the menu ends with a group of every pinned screen, whatever it was. */
  lemma PinnedScreensAreListed(menu: seq<Item>, f: Features, rs: seq<Resource>, screens: seq<Screen>, prefs: Prefs,
                               sort: Sorter)
    requires IsSorter(sort) && f.appFeatures
    ensures HasGroup(Reconciled(menu, f, rs, screens, prefs, sort), "App Features", ScreenPages(screens, prefs))
  {
    hide ScreenPages, EnsureAppFeatures, EnsureSettings, EnsureDocs, InjectScreens, HasGroup;
    var pruned, rs', need := Prune(menu, f), ApplyPrefs(rs, prefs), ScreenPages(screens, prefs);
    var before := if pruned == [] then DefaultMenu(f, rs', screens, prefs, sort)
                  else Repaired(pruned, f, rs', screens, prefs, sort);
    if pruned == [] {
      DefaultHasScreens(f, rs', screens, prefs, sort);
    } else {
      var pinned := InjectPinned(Attach(EnsureResources(pruned, rs', prefs, sort), rs', sort), rs', |rs'|, sort);
      var withFeatures := EnsureAppFeatures(pinned, f, screens, prefs, sort);
      EnsureAppFeaturesMakesGroup(pinned, f, screens, prefs, sort);
      var withScreens := InjectScreens(withFeatures, screens, prefs, |screens|, sort);
      InjectScreensCovers(withFeatures, screens, prefs, |screens|, sort);
      GroupCovered(withFeatures, withScreens, "App Features", need);
      forall page | page in need ensures !Gated(page) { ScreenIsNotGated(screens, prefs, page); }
      SettingsKeepGroup(withScreens, f, sort, "App Features", need);
    }
    SortDeepCovers(before, sort);
    GroupCovered(before, SortDeep(before, sort), "App Features", need);
  }

  lemma SettingsKeepGroup(menu: seq<Item>, f: Features, sort: Sorter, title: string, need: set<string>)
    requires title != "Settings" && HasGroup(menu, title, need) && forall page :: page in need ==> !Gated(page)
    ensures HasGroup(EnsureDocs(EnsureSettings(menu, sort), f, sort), title, need)
  {
    UpdateKeepsGroup(menu, "Settings", AddAppSettings(sort), title, need);
    EnsureDocsKeepsGroup(EnsureSettings(menu, sort), f, sort, title, need);
  }

  lemma DefaultHasScreens(f: Features, rs: seq<Resource>, screens: seq<Screen>, prefs: Prefs, sort: Sorter)
    requires IsSorter(sort) && f.appFeatures
    ensures HasGroup(DefaultMenu(f, rs, screens, prefs, sort), "App Features", ScreenPages(screens, prefs))
  {
    hide SettingsSection, MonitoringSection, AppFeaturesSection, ResourceChildren, ScreenPages, PagesOf;
    var section := AppFeaturesSection(screens, prefs, sort);
    AppFeaturesSectionPages(screens, prefs, sort);
    assert If(f.appFeatures, section) == [section];
    assert section in DefaultMenu(f, rs, screens, prefs, sort);
    assert IsGroup(section, "App Features", ScreenPages(screens, prefs));
  }

  /** A visible resource that names a group as its parent is in it after attaching. */
  lemma AttachItemLists(it: Item, rs: seq<Resource>, sort: Sorter, i: nat)
    requires IsSorter(sort) && i < |rs| && rs[i].enabled != Some(false) && !IsReserved(rs[i].name)
    requires EqualFold(rs[i].parent, it.title) || (EqualFold(rs[i].parent, "app") && EqualFold(it.title, "Operations"))
    requires it.page == "" || EqualFold(it.title, "Operations")
    ensures ContainsPage(AttachItem(it, rs, sort).children, "resource:" + rs[i].name)
  {
    assert ToLower("Operations") == "operations" && ToLower("app") == "app";
    var children := Attach(it.children, rs, sort);
    AttachResourcesLists(children, it.title, rs, |rs|, i);
    var more, page := AttachResources(children, it.title, rs, |rs|), ResourcePage(rs[i]);
    SortDeepHas(more, sort, PageIs(page));
    ContainsIsHas(SortDeep(more, sort), page);
  }

  lemma {:induction false} AttachResourcesLists(children: seq<Item>, title: string, rs: seq<Resource>, n: nat, i: nat)
    requires i < n <= |rs| && Visible(rs[i]) && ParentMatches(rs[i].parent, title)
    ensures Has(AttachResources(children, title, rs, n), PageIs(ResourcePage(rs[i])))
    decreases n
  {
    hide ParentMatches, Visible;
    var before, last := AttachResources(children, title, rs, n - 1), ResourceItem(rs[n - 1]);
    HasAppend(before, [last], PageIs(ResourcePage(rs[i])));
    OneHas(last, PageIs(ResourcePage(rs[i])));
    if i < n - 1 {
      AttachResourcesLists(children, title, rs, n - 1, i);
    } else {
      ContainsIsHas(before, ResourcePage(rs[i]));
    }
  }

  lemma {:induction false} InjectChildLists(items: seq<Item>, lower: string, child: Item, sort: Sorter,
                                            bad: Head -> bool)
    requires IsSorter(sort) && InjectChild(items, lower, child, sort).Some?
    ensures var r := InjectChild(items, lower, child, sort).value;
            (Has(items, bad) ==> Has(r, bad)) && Has(r, PageIs(child.page))
    decreases items
  {
    hide SortDeep, ToLower;
    var first, r := items[0], InjectChild(items, lower, child, sort).value;
    OneHas(child, bad);
    OneHas(child, PageIs(child.page));
    HasAppend(first.children, [child], bad);
    HasAppend(first.children, [child], PageIs(child.page));
    SortDeepHas(first.children + [child], sort, bad);
    SortDeepHas(first.children + [child], sort, PageIs(child.page));
    ContainsIsHas(first.children, child.page);
    if ToLower(first.title) != lower {
      if InjectChild(first.children, lower, child, sort).Some? {
        InjectChildLists(first.children, lower, child, sort, bad);
      } else {
        InjectChildLists(items[1..], lower, child, sort, bad);
      }
    }
    assert items == [first] + items[1..] && r == [r[0]] + r[1..];
    HasAppend([first], items[1..], bad);
    HasAppend([r[0]], r[1..], bad);
    HasAppend([r[0]], r[1..], PageIs(child.page));
    OneHas(first, bad);
    OneHas(r[0], bad);
    OneHas(r[0], PageIs(child.page));
  }

  lemma InjectLists(menu: seq<Item>, lower: string, child: Item, sort: Sorter, bad: Head -> bool)
    requires IsSorter(sort)
    ensures Has(menu, bad) ==> Has(Inject(menu, lower, child, sort), bad)
    ensures Has(Inject(menu, lower, child, sort), PageIs(child.page))
  {
    hide InjectChild;
    ContainsIsHas(menu, child.page);
    if InjectChild(menu, lower, child, sort).Some? { InjectChildLists(menu, lower, child, sort, bad); }
    HasAppend(menu, [child], bad);
    HasAppend(menu, [child], PageIs(child.page));
    OneHas(child, PageIs(child.page));
  }

  /** After the pin pass every pinned resource is somewhere in the menu. */
  lemma {:induction false} InjectPinnedLists(menu: seq<Item>, rs: seq<Resource>, n: nat, sort: Sorter, i: nat)
    requires IsSorter(sort) && i < n <= |rs| && Listed(rs[i]) && rs[i].pin
    ensures Has(InjectPinned(menu, rs, n, sort), PageIs(ResourcePage(rs[i])))
    decreases n
  {
    hide Inject, Listed;
    var bad := PageIs(ResourcePage(rs[i]));
    InjectLists(InjectPinned(menu, rs, n - 1, sort), "resources", ResourceItem(rs[n - 1]), sort, bad);
    if i < n - 1 { InjectPinnedLists(menu, rs, n - 1, sort, i); }
  }

  /** Merging keeps every existing item, adds exactly the injected pages that are new, and each of them once. */
  lemma MergedIs(existing: seq<Item>, injected: seq<Item>, sort: Sorter)
    requires IsSorter(sort) && forall it :: it in injected ==> it.page != ""
    ensures var merged := MergeByPage(existing, injected, sort);
            && Covers(existing, merged) && PagesOf(merged) == PagesOf(existing) + PagesOf(injected)
            && (existing != [] ==> |merged| == |existing| + |PagesOf(injected) - PagesOf(existing)|)
  {
    hide SortDeep, Covers, PagesOf, NewByPage;
    var added := NewByPage(PagesOf(existing), injected);
    NewByPageCounts(PagesOf(existing), injected);
    SortDeepCovers(existing + added, sort);
    SortDeepPages(existing + added, sort);
    PagesUnion(existing, added);
    CoversSelf(existing, existing + added);
    CoversTransitive(existing, existing + added, SortDeep(existing + added, sort));
    NoPages(NO_PREFS);
    CoversSelf([], injected);
    assert PagesOf(existing) + (PagesOf(injected) - PagesOf(existing)) == PagesOf(existing) + PagesOf(injected);
  }

  lemma PagesUnion(a: seq<Item>, b: seq<Item>)
    ensures PagesOf(a + b) == PagesOf(a) + PagesOf(b)
  {
    forall page ensures page in PagesOf(a + b) <==> page in PagesOf(a) + PagesOf(b) {
      if it :| it in a + b && it.page == page { assert it in a || it in b; }
      if it :| it in a && it.page == page { assert it in a + b; }
      if it :| it in b && it.page == page { assert it in a + b; }
    }
  }

  lemma {:induction false} NewByPageCounts(seen: set<string>, injected: seq<Item>)
    requires forall it :: it in injected ==> it.page != ""
    ensures PagesOf(NewByPage(seen, injected)) == PagesOf(injected) - seen
    ensures |NewByPage(seen, injected)| == |PagesOf(injected) - seen|
    decreases |injected|
  {
    hide PagesOf;
    if injected == [] {
      NoPages(NO_PREFS);
    } else {
      var first, rest := injected[0], injected[1..];
      assert injected == [first] + rest;
      PagesCons(first, rest);
      if first.page in seen {
        NewByPageCounts(seen, rest);
        assert PagesOf(injected) - seen == PagesOf(rest) - seen;
      } else {
        NewByPageCounts(seen + {first.page}, rest);
        PagesCons(first, NewByPage(seen + {first.page}, rest));
        assert PagesOf(injected) - seen == {first.page} + (PagesOf(rest) - (seen + {first.page}));
      }
    }
  }

  /** The settings keep what they have and have "App Settings". */
  lemma SettingsHave(it: Item, sort: Sorter, bad: Head -> bool)
    requires IsSorter(sort)
    ensures var settled := AddAppSettings(sort)(it);
            && ContainsPage(settled.children, "app-settings") && (Has(it.children, bad) ==> Has(settled.children, bad))
            && settled.title == it.title && settled.page == it.page
  {
    hide SortDeep;
    var settled, setting := AddAppSettings(sort)(it), Item("App Settings", "app-settings", 10, []);
    var before := (if ContainsPage(it.children, "app-settings") then [] else [setting]) + it.children;
    SortDeepHas(before, sort, bad);
    SortDeepHas(before, sort, PageIs("app-settings"));
    ContainsIsHas(settled.children, "app-settings");
    ContainsIsHas(it.children, "app-settings");
    OneHas(setting, PageIs("app-settings"));
    HasAppend([setting], it.children, bad);
    HasAppend([setting], it.children, PageIs("app-settings"));
    assert [] + it.children == it.children;
  }

  // What is in the sections ----------------------------------------------------

  predicate IsOwnItem(r: Resource, it: Item) {
    it == Item(r.title, "resource:" + r.name, r.priority, [])
  }

  predicate IsPinned(r: Resource, prefs: Prefs) {
    r.pin || (r.name in prefs.resources && prefs.resources[r.name])
  }

  lemma {:induction false} PinnedItemsIff(rs: seq<Resource>, prefs: Prefs, n: nat, it: Item)
    requires n <= |rs|
    ensures it in PinnedItems(rs, prefs, n) <==>
            exists i :: 0 <= i < n && Listed(rs[i]) && IsPinned(rs[i], prefs) && IsOwnItem(rs[i], it)
    ensures UnpinnedCount(rs, prefs, n) > 0 <==> exists i :: 0 <= i < n && Listed(rs[i]) && !IsPinned(rs[i], prefs)
  {
    hide Listed;
    if n > 0 { PinnedItemsIff(rs, prefs, n - 1, it); }
  }

  /** The resources section has an item for each listed pinned resource, with its title, page and priority, and
      "Other Resources" if a listed one is not pinned; nothing else. */
  lemma ResourceChildrenIff(rs: seq<Resource>, prefs: Prefs, sort: Sorter, it: Item)
    requires IsSorter(sort)
    ensures it in ResourceChildren(rs, prefs, sort) <==>
            || (exists i :: 0 <= i < |rs| && Listed(rs[i]) && IsPinned(rs[i], prefs) && IsOwnItem(rs[i], it))
            || (it == Item("Other Resources", "resources", 999, [])
                && exists i :: 0 <= i < |rs| && Listed(rs[i]) && !IsPinned(rs[i], prefs))
  {
    hide Listed, IsPinned;
    var pinned := PinnedItems(rs, prefs, |rs|);
    forall x ensures x in pinned <==>
                     exists i :: 0 <= i < |rs| && Listed(rs[i]) && IsPinned(rs[i], prefs) && IsOwnItem(rs[i], x)
    {
      PinnedItemsIff(rs, prefs, |rs|, x);
    }
    PinnedItemsIff(rs, prefs, |rs|, it);
    LeavesStay(pinned, sort);
  }

  /** Sorting leaves that have no children only moves them. */
  lemma LeavesStay(items: seq<Item>, sort: Sorter)
    requires IsSorter(sort) && forall it :: it in items ==> it.children == []
    ensures forall it :: it in SortDeep(items, sort) <==> it in items
  {
    if items != [] {
      LeavesAreSorted(items, sort);
      SortMembers(items, sort);
    }
  }

  lemma {:induction false} LeavesAreSorted(items: seq<Item>, sort: Sorter)
    requires forall it :: it in items ==> it.children == []
    ensures ChildrenSorted(items, sort) == items
    decreases |items|
  {
    if items != [] {
      LeavesAreSorted(items[1..], sort);
      assert items[0] in items && SortDeep([], sort) == [];
      assert items == [items[0]] + items[1..];
    }
  }

  /** A pinned screen is shown under its display name, or without one under its name. */
  lemma {:induction false} PinnedScreensIff(screens: seq<Screen>, prefs: Prefs, n: nat, it: Item)
    requires n <= |screens|
    ensures it in PinnedScreens(screens, prefs, n) <==>
            exists i :: 0 <= i < n && PinnedScreen(screens[i], prefs)
              && it.title == (if screens[i].displayName != "" then screens[i].displayName else screens[i].name)
              && it.page == "screen:" + screens[i].name && it.priority == 100 && it.children == []
  {
    if n > 0 { PinnedScreensIff(screens, prefs, n - 1, it); }
  }

  /** The users are shown under the title of the first visible user resource. */
  lemma {:induction false} UserLabelIs(rs: seq<Resource>, i: nat)
    requires i <= |rs| && forall j :: 0 <= j < i ==> !(Visible(rs[j]) && ToLower(rs[j].name) == "user")
    requires i < |rs| ==> Visible(rs[i]) && ToLower(rs[i].name) == "user"
    ensures UserLabel(rs) == if i < |rs| then Some(rs[i].title) else None
    decreases i
  {
    hide ToLower, Visible;
    if i > 0 { UserLabelIs(rs[1..], i - 1); }
  }

  function Top(menu: seq<Item>): seq<(string, string, int)> {
    seq(|menu|, i requires 0 <= i < |menu| => (menu[i].title, menu[i].page, menu[i].priority))
  }

  lemma TopIf(menu: seq<Item>, condition: bool, it: Item)
    ensures Top(menu + If(condition, it)) == Top(menu) + if condition then [(it.title, it.page, it.priority)] else []
  {}

  /** What the default menu shows at its top, in order. */
  lemma DefaultTop(f: Features, rs: seq<Resource>, screens: seq<Screen>, prefs: Prefs, sort: Sorter)
    ensures Top(DefaultMenu(f, rs, screens, prefs, sort)) ==
            [("Dashboard", "dashboard", 0)]
            + (if f.featureFlags then [("Feature Flags", "feature-flags", 5)] else [])
            + (match UserLabel(rs) case Some(title) => [(title, "users", 8)] case None => [])
            + (if f.liveops then [("Monitoring", "", 50)] else [])
            + (if ResourceChildren(rs, NO_PREFS, sort) != [] then [("Resources", "", 80)] else [])
            + (if f.appFeatures then [("App Features", "", 70)] else [])
            + [("Settings", "", 90)]
  {
    hide SettingsSection, MonitoringSection, AppFeaturesSection, ResourceChildren, If, Top;
    var children, user := ResourceChildren(rs, NO_PREFS, sort), UserLabel(rs);
    var flags, users :=
      Item("Feature Flags", "feature-flags", 5, []), Item(if user.Some? then user.value else "", "users", 8, []);
    var m0 := [Item("Dashboard", "dashboard", 0, [])];
    TopIf(m0, f.featureFlags, flags);
    var m1 := m0 + If(f.featureFlags, flags);
    TopIf(m1, user.Some?, users);
    var m2 := m1 + If(user.Some?, users);
    TopIf(m2, f.liveops, MonitoringSection(sort));
    var m3 := m2 + If(f.liveops, MonitoringSection(sort));
    TopIf(m3, children != [], Item("Resources", "", 80, children));
    var m4 := m3 + If(children != [], Item("Resources", "", 80, children));
    TopIf(m4, f.appFeatures, AppFeaturesSection(screens, prefs, sort));
    var m5 := m4 + If(f.appFeatures, AppFeaturesSection(screens, prefs, sort));
    SectionHeads(f, screens, prefs, sort, m5);
  }

  lemma SectionHeads(f: Features, screens: seq<Screen>, prefs: Prefs, sort: Sorter, menu: seq<Item>)
    ensures var section := AppFeaturesSection(screens, prefs, sort);
            section.title == "App Features" && section.page == "" && section.priority == 70
    ensures var section := MonitoringSection(sort);
            section.title == "Monitoring" && section.page == "" && section.priority == 50
    ensures Top(menu + [SettingsSection(f, sort)]) == Top(menu) + [("Settings", "", 90)]
    ensures Top([Item("Dashboard", "dashboard", 0, [])]) == [("Dashboard", "dashboard", 0)]
  {}

  // The documentation ----------------------------------------------------------

  lemma DocsSectionShows(sort: Sorter, page: string)
    requires IsSorter(sort) && (page == "api-docs" || page == "bffx-docs")
    ensures ItemHas(DocsSection(sort), PageIs(page))
  {
    var docs := [Item("API Reference", "api-docs", 0, []), Item("BFFX Guide", "bffx-docs", 10, [])];
    SortDeepHas(docs, sort, PageIs(page));
    assert docs[1..] == [docs[1]];
    OneHas(docs[1], PageIs(page));
  }

  lemma WithDocsShows(children: seq<Item>, sort: Sorter, page: string)
    requires IsSorter(sort) && (page == "api-docs" || page == "bffx-docs")
    ensures Has(WithDocs(children, sort), PageIs(page))
  {
    hide DocsSection;
    var kept, section := RemovePage(RemovePage(children, "api-docs"), "bffx-docs"), DocsSection(sort);
    DocsSectionShows(sort, page);
    if HasLabel(kept, "Docs") {
      UpdateMakes(kept, "Docs", ReplaceBy(section), section);
    } else {
      assert section in kept + [section];
    }
    HasIff(WithDocs(children, sort), PageIs(page));
  }

  lemma {:induction false} UpdateShows(menu: seq<Item>, title: string, change: Item -> Item, bad: Head -> bool)
    requires HasLabel(menu, title) && forall it :: it in menu && it.title == title ==> ItemHas(change(it), bad)
    ensures Has(UpdateFirst(menu, title, change), bad)
    decreases |menu|
  {
    if menu[0].title == title {
      assert menu[0] in menu;
      OneHas(change(menu[0]), bad);
      HasAppend([change(menu[0])], menu[1..], bad);
    } else {
      UpdateShows(menu[1..], title, change, bad);
      HasAppend([menu[0]], UpdateFirst(menu[1..], title, change), bad);
    }
  }

  lemma {:induction false} GroupIsLabelled(menu: seq<Item>, title: string)
    requires HasGroup(menu, title, {})
    ensures HasLabel(menu, title)
    decreases |menu|
  {
    var it :| it in menu && IsGroup(it, title, {});
    if menu[0].title != title {
      assert it in menu[1..];
      GroupIsLabelled(menu[1..], title);
    }
  }

  lemma {:induction false} UpdateKeepsTitled(menu: seq<Item>, title: string, change: Item -> Item)
    requires forall it :: change(it).title == it.title && change(it).page == it.page
    requires HasGroup(menu, title, {})
    ensures HasGroup(UpdateFirst(menu, title, change), title, {})
    decreases |menu|
  {
    var it :| it in menu && IsGroup(it, title, {});
    if menu[0].title == title {
      var first, after := change(menu[0]), UpdateFirst(menu, title, change);
      assert it == menu[0] || it in menu[1..];
      assert first in after && forall x :: x in menu[1..] ==> x in after;
      assert IsGroup(if it == menu[0] then first else it, title, {});
    } else {
      assert it in menu[1..];
      UpdateKeepsTitled(menu[1..], title, change);
      var kept :| kept in UpdateFirst(menu[1..], title, change) && IsGroup(kept, title, {});
      assert kept in UpdateFirst(menu, title, change);
    }
  }

  /** With the documentation on, a menu that pruning left empty or with a "Settings" group shows both its pages. */
  lemma DocsAreListed(menu: seq<Item>, f: Features, rs: seq<Resource>, screens: seq<Screen>, prefs: Prefs, sort: Sorter,
                      page: string)
    requires IsSorter(sort) && f.apiDocs && (page == "api-docs" || page == "bffx-docs")
    requires Prune(menu, f) == [] || HasGroup(Prune(menu, f), "Settings", {})
    ensures ContainsPage(Reconciled(menu, f, rs, screens, prefs, sort), page)
  {
    hide Repaired, DefaultMenu, HasGroup;
    var pruned, rs' := Prune(menu, f), ApplyPrefs(rs, prefs);
    var before := if pruned == [] then DefaultMenu(f, rs', screens, prefs, sort)
                  else Repaired(pruned, f, rs', screens, prefs, sort);
    if pruned == [] {
      DefaultShowsDocs(f, rs', screens, prefs, sort, page);
    } else {
      RepairedShowsDocs(pruned, f, rs', screens, prefs, sort, page);
    }
    SortDeepHas(before, sort, PageIs(page));
    ContainsIsHas(SortDeep(before, sort), page);
  }

  lemma DefaultShowsDocs(f: Features, rs: seq<Resource>, screens: seq<Screen>, prefs: Prefs, sort: Sorter, page: string)
    requires IsSorter(sort) && f.apiDocs && (page == "api-docs" || page == "bffx-docs")
    ensures Has(DefaultMenu(f, rs, screens, prefs, sort), PageIs(page))
  {
    hide DocsSection, MonitoringSection, AppFeaturesSection, ResourceChildren, If, SortDeep;
    var settings, menu := SettingsSection(f, sort), DefaultMenu(f, rs, screens, prefs, sort);
    var children := [Item("App Settings", "app-settings", 10, [])] + [DocsSection(sort)];
    DocsSectionShows(sort, page);
    OneHas(DocsSection(sort), PageIs(page));
    HasAppend([Item("App Settings", "app-settings", 10, [])], [DocsSection(sort)], PageIs(page));
    SortDeepHas(children, sort, PageIs(page));
    assert settings.children == SortDeep(children, sort);
    OneHas(settings, PageIs(page));
    assert menu == menu[..|menu| - 1] + [settings];
    HasAppend(menu[..|menu| - 1], [settings], PageIs(page));
  }

  lemma RepairedShowsDocs(menu: seq<Item>, f: Features, rs: seq<Resource>, screens: seq<Screen>, prefs: Prefs,
                          sort: Sorter, page: string)
    requires IsSorter(sort) && f.apiDocs && (page == "api-docs" || page == "bffx-docs")
    requires HasGroup(menu, "Settings", {})
    ensures Has(Repaired(menu, f, rs, screens, prefs, sort), PageIs(page))
  {
    hide EnsureAppFeatures, InjectScreens, InjectPinned, Attach, ResourceChildren, HasGroup, WithDocs, MergeInto;
    var withResources := EnsureResources(menu, rs, prefs, sort);
    UpdateKeepsGroup(menu, "Resources", MergeInto(ResourceChildren(rs, prefs, sort), sort), "Settings", {});
    var attached := Attach(withResources, rs, sort);
    AttachCovers(withResources, rs, sort);
    GroupCovered(withResources, attached, "Settings", {});
    var pinned := InjectPinned(attached, rs, |rs|, sort);
    InjectPinnedCovers(attached, rs, |rs|, sort);
    GroupCovered(attached, pinned, "Settings", {});
    var withFeatures := EnsureAppFeatures(pinned, f, screens, prefs, sort);
    EnsureAppFeaturesKeepsGroup(pinned, f, screens, prefs, sort, "Settings", {});
    var withScreens := InjectScreens(withFeatures, screens, prefs, |screens|, sort);
    InjectScreensCovers(withFeatures, screens, prefs, |screens|, sort);
    GroupCovered(withFeatures, withScreens, "Settings", {});
    var settled := EnsureSettings(withScreens, sort);
    UpdateKeepsTitled(withScreens, "Settings", AddAppSettings(sort));
    GroupIsLabelled(settled, "Settings");
    forall it: Item ensures ItemHas(AddDocs(sort)(it), PageIs(page)) { WithDocsShows(it.children, sort, page); }
    UpdateShows(settled, "Settings", AddDocs(sort), PageIs(page));
  }

  // ---------------------------------------------------------------------------
  // No pass makes the group
  // ---------------------------------------------------------------------------

  predicate IsShell(it: Item) {
    it.title == "Resources" && it.page == ""
  }

  /** No top-level item is a page-less one titled "Resources". */
  predicate Lacks(menu: seq<Item>) {
    forall it <- menu :: !IsShell(it)
  }

  lemma LacksCons(first: Item, rest: seq<Item>)
    ensures Lacks([first] + rest) <==> !IsShell(first) && Lacks(rest)
  {
    assert first in [first] + rest;
    assert forall it :: it in rest ==> it in [first] + rest;
  }

  lemma {:induction false} UpdateLacks(menu: seq<Item>, title: string, change: Item -> Item)
    requires Lacks(menu) && forall it :: it in menu && it.title == title ==> !IsShell(change(it))
    ensures Lacks(UpdateFirst(menu, title, change))
    decreases |menu|
  {
    if menu != [] && menu[0].title != title { UpdateLacks(menu[1..], title, change); }
  }

  lemma {:induction false} RemovePageLacks(menu: seq<Item>, page: string)
    requires Lacks(menu)
    ensures Lacks(RemovePage(menu, page))
    decreases |menu|
  {
    if menu != [] {
      assert menu[0] in menu;
      RemovePageLacks(menu[1..], page);
      LacksCons(menu[0].(children := RemovePage(menu[0].children, page)), RemovePage(menu[1..], page));
    }
  }

  lemma {:induction false} AttachLacks(menu: seq<Item>, rs: seq<Resource>, sort: Sorter)
    requires Lacks(menu)
    ensures Lacks(Attach(menu, rs, sort))
    decreases |menu|
  {
    if menu != [] {
      assert IsShell(AttachItem(menu[0], rs, sort)) == IsShell(menu[0]);
      AttachLacks(menu[1..], rs, sort);
    }
  }

  lemma {:induction false} InjectChildLacks(menu: seq<Item>, lower: string, child: Item, sort: Sorter)
    requires Lacks(menu) && InjectChild(menu, lower, child, sort).Some?
    ensures Lacks(InjectChild(menu, lower, child, sort).value)
    decreases |menu|
  {
    hide ToLower, SortDeep, ContainsPage;
    var first, changed := menu[0], InjectChild(menu, lower, child, sort).value;
    if ToLower(first.title) != lower && InjectChild(first.children, lower, child, sort).None? {
      InjectChildLacks(menu[1..], lower, child, sort);
    }
    assert changed == [changed[0]] + changed[1..] && first in menu;
    LacksCons(changed[0], changed[1..]);
  }

  lemma InjectLacks(menu: seq<Item>, lower: string, child: Item, sort: Sorter)
    requires Lacks(menu) && child.page != ""
    ensures Lacks(Inject(menu, lower, child, sort))
  {
    hide InjectChild;
    if InjectChild(menu, lower, child, sort).Some? { InjectChildLacks(menu, lower, child, sort); }
  }

  lemma {:induction false} InjectPinnedLacks(menu: seq<Item>, rs: seq<Resource>, n: nat, sort: Sorter)
    requires Lacks(menu) && n <= |rs|
    ensures Lacks(InjectPinned(menu, rs, n, sort))
    decreases n
  {
    hide Inject;
    if n > 0 {
      InjectPinnedLacks(menu, rs, n - 1, sort);
      InjectLacks(InjectPinned(menu, rs, n - 1, sort), "resources", ResourceItem(rs[n - 1]), sort);
    }
  }

  lemma {:induction false} InjectScreensLacks(menu: seq<Item>, screens: seq<Screen>, prefs: Prefs, n: nat, sort: Sorter)
    requires Lacks(menu) && n <= |screens|
    ensures Lacks(InjectScreens(menu, screens, prefs, n, sort))
    decreases n
  {
    hide Inject;
    if n > 0 {
      InjectScreensLacks(menu, screens, prefs, n - 1, sort);
      var s := screens[n - 1];
      InjectLacks(InjectScreens(menu, screens, prefs, n - 1, sort), "app features",
                  Item(s.name, ScreenPage(s), 100, []), sort);
    }
  }

  lemma EnsureAppFeaturesLacks(menu: seq<Item>, f: Features, screens: seq<Screen>, prefs: Prefs, sort: Sorter)
    requires Lacks(menu)
    ensures Lacks(EnsureAppFeatures(menu, f, screens, prefs, sort))
  {
    var section := AppFeaturesSection(screens, prefs, sort);
    assert section.title == "App Features";
    RemovePageLacks(menu, "app-features");
    UpdateLacks(menu, "App Features", ReplaceBy(section));
  }

  lemma SettingsLacks(menu: seq<Item>, f: Features, sort: Sorter)
    requires Lacks(menu)
    ensures Lacks(EnsureDocs(EnsureSettings(menu, sort), f, sort))
  {
    UpdateLacks(menu, "Settings", AddAppSettings(sort));
    var settled := EnsureSettings(menu, sort);
    UpdateLacks(settled, "Settings", AddDocs(sort));
    RemovePageLacks(settled, "api-docs");
    RemovePageLacks(RemovePage(settled, "api-docs"), "bffx-docs");
  }

  lemma {:induction false} ChildrenSortedLacks(menu: seq<Item>, sort: Sorter)
    requires Lacks(menu)
    ensures Lacks(ChildrenSorted(menu, sort))
    decreases |menu|
  {
    if menu != [] {
      assert menu[0] in menu;
      ChildrenSortedLacks(menu[1..], sort);
      LacksCons(menu[0].(children := SortDeep(menu[0].children, sort)), ChildrenSorted(menu[1..], sort));
    }
  }

  lemma RepairedLacks(menu: seq<Item>, f: Features, rs: seq<Resource>, screens: seq<Screen>, prefs: Prefs, sort: Sorter)
    requires IsSorter(sort) && Lacks(menu)
    ensures Lacks(SortDeep(Repaired(menu, f, rs, screens, prefs, sort), sort))
  {
    hide EnsureAppFeatures, EnsureSettings, EnsureDocs, InjectPinned, InjectScreens, Attach, ResourceChildren, Lacks;
    var withResources := EnsureResources(menu, rs, prefs, sort);
    EnsureResourcesLacks(menu, rs, prefs, sort);
    var attached := Attach(withResources, rs, sort);
    AttachLacks(withResources, rs, sort);
    var pinned := InjectPinned(attached, rs, |rs|, sort);
    InjectPinnedLacks(attached, rs, |rs|, sort);
    var withFeatures := EnsureAppFeatures(pinned, f, screens, prefs, sort);
    EnsureAppFeaturesLacks(pinned, f, screens, prefs, sort);
    InjectScreensLacks(withFeatures, screens, prefs, |screens|, sort);
    SettingsLacks(InjectScreens(withFeatures, screens, prefs, |screens|, sort), f, sort);
    var repaired := Repaired(menu, f, rs, screens, prefs, sort);
    SortDeepLacks(repaired, sort);
  }

  lemma EnsureResourcesLacks(menu: seq<Item>, rs: seq<Resource>, prefs: Prefs, sort: Sorter)
    requires Lacks(menu)
    ensures Lacks(EnsureResources(menu, rs, prefs, sort))
  {
    var change := MergeInto(ResourceChildren(rs, prefs, sort), sort);
    forall it | it in menu ensures !IsShell(change(it)) { assert !IsShell(it); }
    UpdateLacks(menu, "Resources", change);
  }

  lemma SortDeepLacks(menu: seq<Item>, sort: Sorter)
    requires IsSorter(sort) && Lacks(menu)
    ensures Lacks(SortDeep(menu, sort))
  {
    ChildrenSortedLacks(menu, sort);
    SortMembers(ChildrenSorted(menu, sort), sort);
  }

  /** At most one top-level item is titled "Resources". */
  ghost predicate OneTitle(menu: seq<Item>) {
    forall i, j :: 0 <= i < j < |menu| ==> !(menu[i].title == "Resources" && menu[j].title == "Resources")
  }

  lemma {:induction false} OnlyGroupHasPage(menu: seq<Item>)
    requires OneTitle(menu) && !PagelessGroup(menu)
    ensures Lacks(menu)
    decreases |menu|
  {
    if menu != [] && menu[0].title != "Resources" {
      assert OneTitle(menu[1..]) by { assert forall i :: 0 <= i < |menu| - 1 ==> menu[1..][i] == menu[i + 1]; }
      OnlyGroupHasPage(menu[1..]);
    }
  }

  /** When at most one item is titled "Resources", the group with every visible pinned non-user resource
      is there afterwards if and only if pruning left nothing or left that item as a plain group. */
  lemma PinnedResourcesAreListedIff(menu: seq<Item>, f: Features, rs: seq<Resource>, screens: seq<Screen>, prefs: Prefs,
                                    sort: Sorter)
    requires IsSorter(sort) && NeededPages(rs, prefs) != {} && OneTitle(Prune(menu, f))
    ensures HasGroup(Reconciled(menu, f, rs, screens, prefs, sort), "Resources", NeededPages(rs, prefs)) <==>
            Prune(menu, f) == [] || PagelessGroup(Prune(menu, f))
  {
    var pruned := Prune(menu, f);
    if pruned == [] || PagelessGroup(pruned) {
      PinnedResourcesAreListed(menu, f, rs, screens, prefs, sort);
    } else {
      OnlyGroupHasPage(pruned);
      RepairedLacks(pruned, f, ApplyPrefs(rs, prefs), screens, prefs, sort);
    }
  }

  // ---------------------------------------------------------------------------
  // Where one pass undoes another
  // ---------------------------------------------------------------------------

  /** A menu whose only group is "App Features", with a resource in it. */
  function MisplacedMenu(r: Resource): seq<Item> {
    [MisplacedItem(r)]
  }

  function MisplacedItem(r: Resource): Item {
    Item("App Features", "", 70, [ResourceItem(r)])
  }

  const ALL_FEATURES := Features(true, true, true, true)

  lemma UpdateOne(it: Item, title: string, change: Item -> Item)
    ensures UpdateFirst([it], title, change) == if it.title == title then [change(it)] else [it]
    ensures HasLabel([it], title) == (it.title == title)
  {
    assert UpdateFirst([], title, change) == [];
  }

  lemma MisplacedAttached(r: Resource, sort: Sorter) returns (group: Item)
    requires IsSorter(sort)
    ensures Attach(MisplacedMenu(r), [r], sort) == [group]
    ensures group.title == "App Features" && ContainsPage([group], ResourcePage(r))
  {
    hide ParentMatches, ToLower, SortDeep;
    var item, child := MisplacedMenu(r)[0], ResourceItem(r);
    AttachItemCovers(item, [r], sort);
    group := AttachItem(item, [r], sort);
    assert child in item.children && child.page in PagesOf(item.children);
    var it :| it in group.children && it.page == child.page;
    ContainsIsHas([group], child.page);
    HasIff(group.children, PageIs(child.page));
    OneHas(group, PageIs(child.page));
  }

  /** The pin pass finds the resource listed and leaves it; the next pass replaces the group. */
  lemma MisplacedIsRepaired(r: Resource, sort: Sorter)
    requires IsSorter(sort)
    ensures Repaired(MisplacedMenu(r), ALL_FEATURES, [r], [], NO_PREFS, sort) ==
            [AppFeaturesSection([], NO_PREFS, sort)]
  {
    var menu, children := MisplacedMenu(r), ResourceChildren([r], NO_PREFS, sort);
    var section := AppFeaturesSection([], NO_PREFS, sort);
    hide SortDeep, ResourceChildren, AppFeaturesSection, MergeInto, Attach, UpdateFirst, HasLabel, ToLower,
      ContainsPage;
    UpdateOne(MisplacedItem(r), "Resources", MergeInto(children, sort));
    var group := MisplacedAttached(r, sort);
    UpdateOne(group, "App Features", ReplaceBy(section));
    SectionIsTitled(sort);
    UpdateOne(section, "Settings", AddAppSettings(sort));
    UpdateOne(section, "Settings", AddDocs(sort));
    assert EnsureResources(menu, [r], NO_PREFS, sort) == menu;
    assert Inject([group], "resources", ResourceItem(r), sort) == [group];
    assert InjectPinned([group], [r], 0, sort) == [group];
    assert InjectPinned([group], [r], 1, sort) == [group];
    assert EnsureAppFeatures([group], ALL_FEATURES, [], NO_PREFS, sort) == [section];
    assert InjectScreens([section], [], NO_PREFS, 0, sort) == [section];
    assert EnsureSettings([section], sort) == [section];
    assert EnsureDocs([section], ALL_FEATURES, sort) == [section];
  }

  lemma SectionIsTitled(sort: Sorter)
    ensures AppFeaturesSection([], NO_PREFS, sort).title == "App Features"
  {}

  lemma SectionPages(sort: Sorter, page: string)
    requires IsSorter(sort) && ContainsPage(SortDeep([AppFeaturesSection([], NO_PREFS, sort)], sort), page)
    ensures page == "" || page == "app-features"
  {
    var section := AppFeaturesSection([], NO_PREFS, sort);
    ContainsIsHas(SortDeep([section], sort), page);
    SortDeepHas([section], sort, PageIs(page));
    OneHas(section, PageIs(page));
    var other := Item("Other Features", "app-features", 999, []);
    assert PinnedScreens([], NO_PREFS, 0) == [] && SortDeep([], sort) == [];
    assert section.children == [other];
    OneHas(other, PageIs(page));
  }

  /** Without a "Resources" group the promise fails: a pinned resource listed only under
      "App Features" is nowhere in the reconciled menu. */
  lemma PinnedResourceIsDropped(r: Resource, sort: Sorter)
    requires IsSorter(sort) && Listed(r) && r.pin
    ensures ResourcePage(r) in NeededPages([r], NO_PREFS)
    ensures !ContainsPage(Reconciled(MisplacedMenu(r), ALL_FEATURES, [r], [], NO_PREFS, sort), ResourcePage(r))
  {
    hide SortDeep, AppFeaturesSection, Repaired, Listed, ContainsPage;
    assert r in [r];
    assert ApplyPrefs([r], NO_PREFS) == [r];
    MisplacedIsRepaired(r, sort);
    assert ResourcePage(r)[0] == 'r';
    if ContainsPage(SortDeep([AppFeaturesSection([], NO_PREFS, sort)], sort), ResourcePage(r)) {
      SectionPages(sort, ResourcePage(r));
    }
  }
}
