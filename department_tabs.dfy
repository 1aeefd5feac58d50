/** The department tab-panel controller: a tab list whose selection shows one
    panel, follows the keyboard, and is kept in step with the URL fragment. */
module DepartmentTabs {
  import opened JsRuntime

  /** A tab element: its `aria-controls` attribute, its `is-active` class and
      its `aria-selected` and `tabindex` attributes (`None` when absent). */
  datatype Tab = Tab(controls: Option<string>, active: bool, ariaSelected: Option<bool>, tabindex: Option<int>)

  /** A panel element: its `is-active` class and its `hidden` attribute. */
  datatype Panel = Panel(active: bool, hidden: bool)

  datatype Key = ArrowRight | ArrowDown | ArrowLeft | ArrowUp | Home | End | OtherKey

  // ---------------------------------------------------------------------------
  // Tabs
  // ---------------------------------------------------------------------------

  /** `aria-controls`, when it is present and not empty. */
  function PanelId(t: Tab): (r: Option<string>)
    ensures r.Some? <==> t.controls.Some? && t.controls.value != ""
    ensures r.Some? ==> r.value == t.controls.value
  {
    match t.controls
    case Some(id) => if id != "" then Some(id) else None
    case None => None
  }

  /** `getPanel(tab)`: the id of the element the tab controls, if the page has one. */
  function Resolve(panels: map<string, Panel>, t: Tab): (r: Option<string>)
    ensures r.Some? <==> PanelId(t).Some? && PanelId(t).value in panels
    ensures r.Some? ==> r == PanelId(t)
  {
    match PanelId(t)
    case Some(id) => if id in panels then Some(id) else None
    case None => None
  }

  /** Attribute defaults written before the first selection: a missing
      `aria-selected` or `tabindex` is derived from the `is-active` class. */
  function Normalise(t: Tab): (r: Tab)
    ensures r.controls == t.controls && r.active == t.active
    ensures r.ariaSelected == (if t.ariaSelected.Some? then t.ariaSelected else Some(t.active))
    ensures r.tabindex.Some? && (t.tabindex.Some? ==> r.tabindex == t.tabindex)
    ensures t.tabindex.None? ==> (r.tabindex == Some(0) <==> t.active)
  {
    t.(ariaSelected := if t.ariaSelected.None? then Some(t.active) else t.ariaSelected,
       tabindex := if t.tabindex.None? then Some(if t.active then 0 else -1) else t.tabindex)
  }

  function MarkTab(t: Tab, on: bool): Tab {
    t.(active := on, ariaSelected := Some(on), tabindex := Some(if on then 0 else -1))
  }

  function MarkedTabs(ts: seq<Tab>, target: nat): (r: seq<Tab>)
    ensures |r| == |ts|
    ensures forall i :: 0 <= i < |r| ==> r[i].controls == ts[i].controls
  {
    seq(|ts|, i requires 0 <= i < |ts| => MarkTab(ts[i], i == target))
  }

  function ShowPanel(p: Panel, on: bool): Panel {
    p.(active := on, hidden := !on)
  }

  /** The panels after the first `k` tabs of `setActive(tabs[target])` have
      been visited: each visited tab with a resolvable panel shows it when it
      is the target and hides it otherwise. */
  function PanelsAfter(panels: map<string, Panel>, ts: seq<Tab>, target: nat, k: nat): (r: map<string, Panel>)
    requires k <= |ts|
    ensures r.Keys == panels.Keys
  {
    if k == 0 then panels
    else
      var p := PanelsAfter(panels, ts, target, k - 1);
      match Resolve(p, ts[k - 1])
      case Some(id) => p[id := ShowPanel(p[id], k - 1 == target)]
      case None => p
  }

  /** The last of the first `k` tabs whose `aria-controls` names `id`. */
  function LastController(ts: seq<Tab>, id: string, k: nat): (r: Option<nat>)
    requires k <= |ts|
    ensures r.Some? ==> r.value < k && PanelId(ts[r.value]) == Some(id)
    ensures r.Some? ==> forall j :: r.value < j < k ==> PanelId(ts[j]) != Some(id)
    ensures r.None? ==> forall j :: 0 <= j < k ==> PanelId(ts[j]) != Some(id)
  {
    if k == 0 then None
    else if PanelId(ts[k - 1]) == Some(id) then Some(k - 1)
    else LastController(ts, id, k - 1)
  }

  /** Selecting a tab leaves exactly that tab active, selected and in the tab
      order; every other tab is unselected and has `tabindex="-1"`. */
  lemma MarkedTabsSelectOne(ts: seq<Tab>, target: nat)
    ensures forall i :: 0 <= i < |ts| ==>
      var t := MarkedTabs(ts, target)[i];
      (t.active <==> i == target) && t.ariaSelected == Some(i == target) &&
      (t.tabindex == Some(0) <==> i == target) && (t.tabindex == Some(-1) <==> i != target) &&
      t.controls == ts[i].controls
  {
  }

  /** A panel ends up as the last tab controlling it left it: shown when that
      tab is the target, hidden otherwise; a panel no tab controls is untouched. */
  lemma PanelFollowsLastController(panels: map<string, Panel>, ts: seq<Tab>, target: nat, k: nat)
    requires k <= |ts|
    ensures forall id :: id in panels && LastController(ts, id, k).Some? ==>
      PanelsAfter(panels, ts, target, k)[id] == ShowPanel(panels[id], LastController(ts, id, k).value == target)
    ensures forall id :: id in panels && LastController(ts, id, k).None? ==>
      PanelsAfter(panels, ts, target, k)[id] == panels[id]
  {
    forall id | id in panels
      ensures PanelsAfter(panels, ts, target, k)[id] ==
        if LastController(ts, id, k).Some?
        then ShowPanel(panels[id], LastController(ts, id, k).value == target)
        else panels[id]
    {
      PanelOf(panels, ts, target, k, id);
    }
  }

  /** `PanelFollowsLastController` for one panel, by induction on the tabs visited. */
  lemma {:induction false} PanelOf(panels: map<string, Panel>, ts: seq<Tab>, target: nat, k: nat, id: string)
    requires k <= |ts| && id in panels
    ensures PanelsAfter(panels, ts, target, k)[id] ==
      if LastController(ts, id, k).Some?
      then ShowPanel(panels[id], LastController(ts, id, k).value == target)
      else panels[id]
  {
    if k > 0 {
      PanelOf(panels, ts, target, k - 1, id);
      var p := PanelsAfter(panels, ts, target, k - 1);
      if PanelId(ts[k - 1]) == Some(id) {
        assert Resolve(p, ts[k - 1]) == Some(id);
      } else {
        assert PanelsAfter(panels, ts, target, k)[id] == p[id];
      }
    }
  }

  /** No two tabs control the same panel. */
  predicate UniqueControls(ts: seq<Tab>) {
    forall i, j :: 0 <= i < j < |ts| && PanelId(ts[i]).Some? ==> PanelId(ts[i]) != PanelId(ts[j])
  }

  /** With one tab per panel, selecting `target` shows the target's panel and
      hides the panel of every other tab. */
  lemma UniqueControlsShowOnlyTarget(panels: map<string, Panel>, ts: seq<Tab>, target: nat)
    requires UniqueControls(ts)
    ensures forall j :: 0 <= j < |ts| && Resolve(panels, ts[j]).Some? ==>
      var id := Resolve(panels, ts[j]).value;
      PanelsAfter(panels, ts, target, |ts|)[id] == ShowPanel(panels[id], j == target)
  {
    PanelFollowsLastController(panels, ts, target, |ts|);
    forall j | 0 <= j < |ts| && Resolve(panels, ts[j]).Some?
      ensures var id := Resolve(panels, ts[j]).value;
        PanelsAfter(panels, ts, target, |ts|)[id] == ShowPanel(panels[id], j == target)
    {
      var id := Resolve(panels, ts[j]).value;
      assert LastController(ts, id, |ts|) == Some(j);
    }
  }

  /** Two tabs controlling the same panel: selecting the first one still leaves
      the shared panel hidden, because the second tab's visit comes later. */
  lemma LaterTabOverrides()
    ensures var ts := [Tab(Some("p"), false, None, None), Tab(Some("p"), false, None, None)];
      var panels := map["p" := Panel(false, true)];
      PanelsAfter(panels, ts, 0, 2)["p"] == Panel(false, true)
  {
    var ts := [Tab(Some("p"), false, None, None), Tab(Some("p"), false, None, None)];
    var panels := map["p" := Panel(false, true)];
    assert Resolve(panels, ts[0]) == Some("p");
    var p1 := PanelsAfter(panels, ts, 0, 1);
    assert p1 == panels["p" := Panel(true, false)];
    assert Resolve(p1, ts[1]) == Some("p");
  }

  /** A second selection overwrites the first entirely: selecting `a` and then
      `b` leaves the tabs as selecting `b` alone would. */
  lemma ReselectTabs(ts: seq<Tab>, a: nat, b: nat)
    ensures MarkedTabs(MarkedTabs(ts, a), b) == MarkedTabs(ts, b)
    ensures MarkedTabs(seq(|ts|, i requires 0 <= i < |ts| => Normalise(ts[i])), b) == MarkedTabs(ts, b)
  {
  }

  /** The same for the panels: only the last selection's target matters. */
  lemma ReselectPanels(panels: map<string, Panel>, ts: seq<Tab>, ts': seq<Tab>, a: nat, b: nat)
    requires |ts'| == |ts| && forall i :: 0 <= i < |ts| ==> ts'[i].controls == ts[i].controls
    ensures PanelsAfter(PanelsAfter(panels, ts, a, |ts|), ts', b, |ts|) == PanelsAfter(panels, ts, b, |ts|)
  {
    var first := PanelsAfter(panels, ts, a, |ts|);
    PanelFollowsLastController(panels, ts, a, |ts|);
    PanelFollowsLastController(first, ts', b, |ts|);
    PanelFollowsLastController(panels, ts, b, |ts|);
    forall id | id in panels
      ensures PanelsAfter(first, ts', b, |ts|)[id] == PanelsAfter(panels, ts, b, |ts|)[id]
    {
      SameControllers(ts, ts', id, |ts|);
    }
  }

  lemma {:induction false} SameControllers(ts: seq<Tab>, ts': seq<Tab>, id: string, k: nat)
    requires k <= |ts| == |ts'| && forall i :: 0 <= i < |ts| ==> ts'[i].controls == ts[i].controls
    ensures LastController(ts', id, k) == LastController(ts, id, k)
  {
    if k > 0 {
      assert PanelId(ts'[k - 1]) == PanelId(ts[k - 1]);
      SameControllers(ts, ts', id, k - 1);
    }
  }

  // ---------------------------------------------------------------------------
  // Keyboard and fragment
  // ---------------------------------------------------------------------------

  /** The argument the key handler of tab `i` passes to `focusTabByIndex`. */
  function KeyRequest(i: nat, key: Key, n: nat): Option<int> {
    match key
    case ArrowRight => Some(i + 1)
    case ArrowDown => Some(i + 1)
    case ArrowLeft => Some(i - 1)
    case ArrowUp => Some(i - 1)
    case Home => Some(0)
    case End => Some(n - 1)
    case OtherKey => None
  }

  /** The tab a key selects: the next or previous tab, cyclically, or the first
      or the last one. */
  function KeyTarget(i: nat, key: Key, n: nat): (t: nat)
    requires i < n
    ensures t < n
  {
    match key
    case ArrowRight => (i + 1) % n
    case ArrowDown => (i + 1) % n
    case ArrowLeft => (i - 1 + n) % n
    case ArrowUp => (i - 1 + n) % n
    case Home => 0
    case End => n - 1
    case OtherKey => i
  }

  /** `focusTabByIndex(index)` selects `tabs[(index + n) % n]` with the
      truncating `%`; for every key request that is exactly `KeyTarget`. */
  lemma KeyRequestSelectsKeyTarget(i: nat, key: Key, n: nat)
    requires i < n && key != OtherKey
    ensures TruncRem(KeyRequest(i, key, n).value + n, n) == KeyTarget(i, key, n)
  {
    var r := KeyRequest(i, key, n).value;
    assert r + n >= 0;
    match key
    case ArrowRight => ModShift(i + 1, 1, n);
    case ArrowDown => ModShift(i + 1, 1, n);
    case Home => ModOf(n, n, 1, 0);
    case End => ModOf(n - 1 + n, n, 1, n - 1);
    case _ =>
  }

  /** The arrow keys step to the neighbouring tab and wrap at both ends. */
  lemma ArrowKeysWrap(i: nat, n: nat)
    requires i < n
    ensures KeyTarget(i, ArrowRight, n) == if i == n - 1 then 0 else i + 1
    ensures KeyTarget(i, ArrowLeft, n) == if i == 0 then n - 1 else i - 1
  {
    if i == n - 1 {
      ModOf(i + 1, n, 1, 0);
    } else {
      ModOf(i + 1, n, 0, i + 1);
    }
    if i == 0 {
      ModOf(n - 1, n, 0, n - 1);
    } else {
      ModOf(i - 1 + n, n, 1, i - 1);
    }
  }

  /** `hash.replace('#', '')`: the fragment without its first `#`. */
  function StripHash(h: string): (r: string)
    ensures '#' !in h ==> r == h
    ensures |h| >= 1 && h[0] == '#' ==> r == h[1..]
  {
    if h == [] then []
    else if h[0] == '#' then h[1..]
    else [h[0]] + StripHash(h[1..])
  }

  /** The tab `syncWithHash` selects for fragment `h`: none for an empty
      fragment, otherwise the first tab whose `aria-controls` equals it. */
  function HashTarget(h: string, ts: seq<Tab>): (r: Option<nat>)
    ensures r.Some? ==> r.value < |ts| && StripHash(h) != "" && ts[r.value].controls == Some(StripHash(h))
    ensures r.Some? ==> forall j :: 0 <= j < r.value ==> ts[j].controls != Some(StripHash(h))
    ensures r.None? ==> StripHash(h) == "" || forall j :: 0 <= j < |ts| ==> ts[j].controls != Some(StripHash(h))
  {
    var id := StripHash(h);
    if id == "" then None else First(ts, (t: Tab) => t.controls == Some(id))
  }

  /** The fragment a selection writes leads `syncWithHash` back to the same tab
      when each panel has one tab. */
  lemma HashRoundTrip(ts: seq<Tab>, k: nat)
    requires k < |ts| && UniqueControls(ts) && PanelId(ts[k]).Some?
    ensures HashTarget("#" + PanelId(ts[k]).value, ts) == Some(k)
  {
    var id := PanelId(ts[k]).value;
    assert StripHash("#" + id) == id;
    assert ts[k].controls == Some(id);
  }

  /** `tabs.find(tab => tab.classList.contains('is-active')) || tabs[0]`. */
  function InitialTab(ts: seq<Tab>): (k: nat)
    requires |ts| >= 1
    ensures k < |ts|
    ensures ts[k].active || forall i :: 0 <= i < |ts| ==> !ts[i].active
    ensures forall i :: 0 <= i < k ==> !ts[i].active
  {
    match First(ts, (t: Tab) => t.active)
    case Some(k) => k
    case None => 0
  }

  /** The tab selected once initialisation is over: the fragment's tab, else the
      initially active one. */
  function StartTab(ts: seq<Tab>, h: string): (k: nat)
    requires |ts| >= 1
    ensures k < |ts|
  {
    match HashTarget(h, ts)
    case Some(k) => k
    case None => InitialTab(ts)
  }

  // ---------------------------------------------------------------------------
  // The controller
  // ---------------------------------------------------------------------------

  /** One `.department-tabs` group together with the parts of the page it
      touches: the elements by id that its tabs may control, the location's
      fragment, and the element holding focus. */
  class TabGroup {
    const tabs: array<Tab>
    var panels: map<string, Panel>
    var hash: string
    var focused: Option<nat>

    constructor (tabs: array<Tab>, panels: map<string, Panel>, hash: string)
      requires tabs.Length >= 1
      modifies tabs
      ensures this.tabs == tabs && this.hash == hash && focused == None
      ensures tabs[..] == MarkedTabs(old(tabs[..]), StartTab(old(tabs[..]), hash))
      ensures this.panels == PanelsAfter(panels, old(tabs[..]), StartTab(old(tabs[..]), hash), tabs.Length)
    {
      this.tabs := tabs;
      this.panels := panels;
      this.hash := hash;
      focused := None;
      new;
      Initialise();
    }

    /** Attribute defaults, the initial selection without touching the
        fragment, and a first `syncWithHash` without moving focus. */
    method Initialise()
      requires tabs.Length >= 1 && focused == None
      modifies tabs, this`panels, this`hash, this`focused
      ensures focused == None && hash == old(hash)
      ensures tabs[..] == MarkedTabs(old(tabs[..]), StartTab(old(tabs[..]), hash))
      ensures panels == PanelsAfter(old(panels), old(tabs[..]), StartTab(old(tabs[..]), hash), tabs.Length)
    {
      ghost var ts0, p0 := tabs[..], panels;
      NormaliseAttributes();
      var initial := InitialTab(tabs[..]);
      var _ := SetActive(initial, false, false);
      SyncWithHash(false);
      InitialisationOutcome(ts0, p0, hash);
    }

    /** Writes the default `aria-selected` and `tabindex` where they are missing. */
    method NormaliseAttributes()
      modifies tabs
      ensures tabs[..] == Normalised(old(tabs[..]))
    {
      var i := 0;
      while i < tabs.Length
        invariant 0 <= i <= tabs.Length
        invariant forall j :: 0 <= j < i ==> tabs[j] == Normalise(old(tabs[j]))
        invariant forall j :: i <= j < tabs.Length ==> tabs[j] == old(tabs[j])
      {
        tabs[i] := Normalise(tabs[i]);
        i := i + 1;
      }
      assert tabs[..] == Normalised(old(tabs[..]));
    }

    /** `setActive(tabs[target], { focus, updateHash })`. Returns whether the
        fragment was replaced. */
    method SetActive(target: nat, focus: bool, updateHash: bool) returns (rewrote: bool)
      requires target < tabs.Length
      modifies tabs, this`panels, this`hash, this`focused
      ensures tabs[..] == MarkedTabs(old(tabs[..]), target)
      ensures panels == PanelsAfter(old(panels), old(tabs[..]), target, tabs.Length)
      ensures rewrote <==> updateHash && PanelId(old(tabs[target])).Some? && old(hash) != "#" + PanelId(old(tabs[target])).value
      ensures hash == if updateHash && PanelId(old(tabs[target])).Some? then "#" + PanelId(old(tabs[target])).value else old(hash)
      ensures focused == if focus then Some(target) else old(focused)
    {
      var activeControls := PanelId(tabs[target]);
      SelectTab(target);
      rewrote := false;
      if updateHash && activeControls.Some? {
        var newHash := "#" + activeControls.value;
        if hash != newHash {
          hash := newHash;
          rewrote := true;
        }
      }
      if focus {
        focused := Some(target);
      }
    }

    /** The `tabs.forEach` of `setActive`: marks each tab and shows or hides the
        panel it resolves to. */
    method SelectTab(target: nat)
      requires target < tabs.Length
      modifies tabs, this`panels
      ensures tabs[..] == MarkedTabs(old(tabs[..]), target)
      ensures panels == PanelsAfter(old(panels), old(tabs[..]), target, tabs.Length)
    {
      var i := 0;
      while i < tabs.Length
        invariant 0 <= i <= tabs.Length
        invariant forall j :: 0 <= j < i ==> tabs[j] == MarkTab(old(tabs[j]), j == target)
        invariant forall j :: i <= j < tabs.Length ==> tabs[j] == old(tabs[j])
        invariant panels == PanelsAfter(old(panels), old(tabs[..]), target, i)
      {
        var isActive := i == target;
        var tab := tabs[i];
        tabs[i] := MarkTab(tab, isActive);
        assert tab == old(tabs[..])[i];
        TogglePanel(tab, isActive);
        i := i + 1;
      }
      assert tabs[..] == MarkedTabs(old(tabs[..]), target);
    }

    /** One step of the loop over the tabs: the tab's panel, if it resolves,
        is shown or hidden. */
    method TogglePanel(tab: Tab, on: bool)
      modifies this`panels
      ensures panels == match Resolve(old(panels), tab)
        case Some(id) => old(panels)[id := ShowPanel(old(panels)[id], on)]
        case None => old(panels)
    {
      match Resolve(panels, tab) {
        case Some(id) =>
          panels := panels[id := ShowPanel(panels[id], on)];
        case None =>
      }
    }

    /** `focusTabByIndex(index)`: selects `tabs[(index + n) % n]` with focus and
        fragment update; a negative remainder names no tab and does nothing. */
    method FocusTabByIndex(index: int)
      requires tabs.Length >= 1
      modifies tabs, this`panels, this`hash, this`focused
      ensures var t := TruncRem(index + tabs.Length, tabs.Length);
        if 0 <= t then
          tabs[..] == MarkedTabs(old(tabs[..]), t) &&
          panels == PanelsAfter(old(panels), old(tabs[..]), t, tabs.Length) &&
          focused == Some(t) &&
          hash == if PanelId(old(tabs[t])).Some? then "#" + PanelId(old(tabs[t])).value else old(hash)
        else
          tabs[..] == old(tabs[..]) && panels == old(panels) && hash == old(hash) && focused == old(focused)
    {
      var n := tabs.Length;
      var t := TruncRem(index + n, n);
      if 0 <= t {
        var _ := SetActive(t, true, true);
      }
    }

    /** A key press on tab `i`. */
    method KeyDown(i: nat, key: Key)
      requires i < tabs.Length
      modifies tabs, this`panels, this`hash, this`focused
      ensures key == OtherKey ==> tabs[..] == old(tabs[..]) && panels == old(panels) && hash == old(hash) && focused == old(focused)
      ensures key != OtherKey ==>
        var t := KeyTarget(i, key, tabs.Length);
        tabs[..] == MarkedTabs(old(tabs[..]), t) &&
        panels == PanelsAfter(old(panels), old(tabs[..]), t, tabs.Length) &&
        focused == Some(t) &&
        hash == if PanelId(old(tabs[t])).Some? then "#" + PanelId(old(tabs[t])).value else old(hash)
    {
      match KeyRequest(i, key, tabs.Length) {
        case Some(index) =>
          KeyRequestSelectsKeyTarget(i, key, tabs.Length);
          FocusTabByIndex(index);
        case None =>
      }
    }

    /** A click on tab `i`: select it and write its fragment, without moving focus. */
    method Click(i: nat)
      requires i < tabs.Length
      modifies tabs, this`panels, this`hash, this`focused
      ensures tabs[..] == MarkedTabs(old(tabs[..]), i)
      ensures panels == PanelsAfter(old(panels), old(tabs[..]), i, tabs.Length)
      ensures focused == old(focused)
      ensures hash == if PanelId(old(tabs[i])).Some? then "#" + PanelId(old(tabs[i])).value else old(hash)
    {
      var _ := SetActive(i, false, true);
    }

    /** `syncWithHash(shouldFocus)`: select the fragment's tab, if any, without
        ever rewriting the fragment. */
    method SyncWithHash(shouldFocus: bool)
      requires tabs.Length >= 1
      modifies tabs, this`panels, this`hash, this`focused
      ensures hash == old(hash)
      ensures match HashTarget(hash, old(tabs[..]))
        case Some(k) =>
          tabs[..] == MarkedTabs(old(tabs[..]), k) &&
          panels == PanelsAfter(old(panels), old(tabs[..]), k, tabs.Length) &&
          focused == if shouldFocus then Some(k) else old(focused)
        case None =>
          tabs[..] == old(tabs[..]) && panels == old(panels) && focused == old(focused)
    {
      var id := StripHash(hash);
      if id == "" {
        return;
      }
      var matching := First(tabs[..], (t: Tab) => t.controls == Some(id));
      match matching {
        case Some(k) =>
          var _ := SetActive(k, shouldFocus, false);
        case None =>
      }
    }

    /** The `hashchange` event after the fragment became `newHash`. */
    method HashChange(newHash: string)
      requires tabs.Length >= 1
      modifies tabs, this`panels, this`hash, this`focused
      ensures hash == newHash
      ensures match HashTarget(newHash, old(tabs[..]))
        case Some(k) =>
          tabs[..] == MarkedTabs(old(tabs[..]), k) &&
          panels == PanelsAfter(old(panels), old(tabs[..]), k, tabs.Length) &&
          focused == Some(k)
        case None =>
          tabs[..] == old(tabs[..]) && panels == old(panels) && focused == old(focused)
    {
      hash := newHash;
      SyncWithHash(true);
    }
  }

  function Normalised(ts: seq<Tab>): (r: seq<Tab>)
    ensures |r| == |ts|
  {
    seq(|ts|, i requires 0 <= i < |ts| => Normalise(ts[i]))
  }

  /** Initialisation (defaults, initial selection, fragment sync) ends as a
      single selection of `StartTab` would. */
  lemma InitialisationOutcome(ts0: seq<Tab>, p0: map<string, Panel>, h: string)
    requires |ts0| >= 1
    ensures var ts1 := Normalised(ts0);
      var initial := InitialTab(ts1);
      var ts2 := MarkedTabs(ts1, initial);
      var p2 := PanelsAfter(p0, ts1, initial, |ts0|);
      match HashTarget(h, ts2)
      case Some(k) =>
        MarkedTabs(ts2, k) == MarkedTabs(ts0, StartTab(ts0, h)) &&
        PanelsAfter(p2, ts2, k, |ts0|) == PanelsAfter(p0, ts0, StartTab(ts0, h), |ts0|)
      case None =>
        ts2 == MarkedTabs(ts0, StartTab(ts0, h)) &&
        p2 == PanelsAfter(p0, ts0, StartTab(ts0, h), |ts0|)
  {
    var ts1 := Normalised(ts0);
    var initial := InitialTab(ts1);
    var ts2 := MarkedTabs(ts1, initial);
    assert forall j :: 0 <= j < |ts0| ==> ts1[j].active == ts0[j].active;
    assert initial == InitialTab(ts0);
    HashTargetDependsOnControls(h, ts0, ts2);
    HashTargetDependsOnControls(h, ts0, ts1);
    PanelsAfterDependsOnControls(p0, ts0, ts1, initial, |ts0|);
    ReselectTabs(ts0, initial, initial);
    match HashTarget(h, ts0) {
      case Some(k) =>
        ReselectTabs(ts1, initial, k);
        ReselectTabs(ts0, initial, k);
        ReselectPanels(p0, ts0, ts2, initial, k);
      case None =>
    }
  }

  lemma HashTargetDependsOnControls(h: string, ts: seq<Tab>, ts': seq<Tab>)
    requires |ts'| == |ts| && forall i :: 0 <= i < |ts| ==> ts'[i].controls == ts[i].controls
    ensures HashTarget(h, ts') == HashTarget(h, ts)
  {
    var id := StripHash(h);
    if id != "" {
      var a, b := HashTarget(h, ts), HashTarget(h, ts');
      if a.Some? {
        assert ts'[a.value].controls == Some(id);
      }
      if b.Some? {
        assert ts[b.value].controls == Some(id);
      }
    }
  }

  lemma {:induction false} PanelsAfterDependsOnControls(panels: map<string, Panel>, ts: seq<Tab>, ts': seq<Tab>, target: nat, k: nat)
    requires k <= |ts| == |ts'| && forall i :: 0 <= i < |ts| ==> ts'[i].controls == ts[i].controls
    ensures PanelsAfter(panels, ts', target, k) == PanelsAfter(panels, ts, target, k)
  {
    if k > 0 {
      PanelsAfterDependsOnControls(panels, ts, ts', target, k - 1);
      assert PanelId(ts'[k - 1]) == PanelId(ts[k - 1]);
    }
  }

  /** Mounting a tab group: nothing is wired when it has no tabs. */
  method Mount(tabs: array<Tab>, panels: map<string, Panel>, hash: string) returns (g: Option<TabGroup>)
    modifies tabs
    ensures g.None? <==> tabs.Length == 0
    ensures g.Some? ==>
      fresh(g.value) && g.value.tabs == tabs && g.value.hash == hash &&
      tabs[..] == MarkedTabs(old(tabs[..]), StartTab(old(tabs[..]), hash))
  {
    if tabs.Length == 0 {
      return None;
    }
    var group := new TabGroup(tabs, panels, hash);
    return Some(group);
  }
}
