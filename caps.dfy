/**
  `update_role_caps_for_custom_levels`: for every level in the levels option,
  the role of that slug is given exactly `read` plus the capability of each
  menu item the level may see, and loses every other capability. Nothing in
  the plugin hooks this routine or its caller `assign_role_capabilities`.
 */
module Capabilities {
  import opened Php
  import opened OrderedMaps
  import opened Levels
  import opened AdminMenu
  import opened Settings

  const READ: string := "read"

  /**
    The capability the first `$menu` item with slug `slug` requires, trimmed
    of tags and white space; none when no item has that slug or the first
    one's capability is missing or falsy. Later items are not consulted.
   */
  function CapFor(menu: seq<MenuItem>, slug: string, stripTags: string -> string): Option<string>
  {
    if menu == [] then None
    else if menu[0].slug == Some(slug) then
      if menu[0].capability.Some? && Truthy(menu[0].capability.value)
      then Some(Trim(stripTags(menu[0].capability.value)))
      else None
    else CapFor(menu[1..], slug, stripTags)
  }

  /**
    `CapFor` answers from the first item whose slug matches: when it finds a
    capability, there is such an item and that item names a truthy
    capability.
   */
  lemma {:induction false} CapForIsFirstMatch(menu: seq<MenuItem>, slug: string, stripTags: string -> string) returns (i: nat)
    ensures CapFor(menu, slug, stripTags).Some? ==>
              && i < |menu| && menu[i].slug == Some(slug)
              && (forall j :: 0 <= j < i ==> menu[j].slug != Some(slug))
              && menu[i].capability.Some? && Truthy(menu[i].capability.value)
              && CapFor(menu, slug, stripTags) == Some(Trim(stripTags(menu[i].capability.value)))
  {
    if menu == [] || menu[0].slug == Some(slug) {
      i := 0;
    } else {
      var rest := menu[1..];
      var k := CapForIsFirstMatch(rest, slug, stripTags);
      i := k + 1;
      if CapFor(menu, slug, stripTags).Some? {
        assert menu[i] == rest[k];
        forall j | 0 <= j < i
          ensures menu[j].slug != Some(slug)
        {
          if j > 0 {
            assert menu[j] == rest[j - 1];
          }
        }
      }
    }
  }

  /**
    At the first item whose slug matches, `CapFor` answers from that item
    alone: its capability, tag-stripped and trimmed, when it is set and
    truthy, and none otherwise, whatever later items with the same slug say.
   */
  lemma {:induction false} CapForAtFirstMatch(menu: seq<MenuItem>, slug: string, stripTags: string -> string, i: nat)
    requires i < |menu| && menu[i].slug == Some(slug)
    requires forall j :: 0 <= j < i ==> menu[j].slug != Some(slug)
    ensures CapFor(menu, slug, stripTags) ==
              if menu[i].capability.Some? && Truthy(menu[i].capability.value)
              then Some(Trim(stripTags(menu[i].capability.value)))
              else None
  {
    if i > 0 {
      assert menu[0].slug != Some(slug);
      var rest := menu[1..];
      assert rest[i - 1] == menu[i];
      forall j | 0 <= j < i - 1
        ensures rest[j].slug != Some(slug)
      {
        assert rest[j] == menu[j + 1];
      }
      CapForAtFirstMatch(rest, slug, stripTags, i - 1);
    }
  }

  /** No item with the slug, no capability. */
  lemma {:induction false} CapForNoMatch(menu: seq<MenuItem>, slug: string, stripTags: string -> string)
    requires forall j :: 0 <= j < |menu| ==> menu[j].slug != Some(slug)
    ensures CapFor(menu, slug, stripTags) == None
  {
    if menu != [] {
      assert forall j :: 0 <= j < |menu| - 1 ==> menu[1..][j] == menu[j + 1];
      CapForNoMatch(menu[1..], slug, stripTags);
    }
  }

  /** The lookup loop for one selected slug, which stops at the first item with that slug. */
  method FindCap(menu: seq<MenuItem>, slug: string, stripTags: string -> string) returns (cap: Option<string>)
    ensures cap == CapFor(menu, slug, stripTags)
  {
    cap := None;
    for i := 0 to |menu|
      invariant CapFor(menu[i..], slug, stripTags) == CapFor(menu, slug, stripTags)
    {
      var item := menu[i];
      assert menu[i..][1..] == menu[i + 1..];
      if item.slug == Some(slug) {
        if item.capability.Some? && Truthy(item.capability.value) {
          cap := Some(Trim(stripTags(item.capability.value)));
        }
        return;
      }
    }
  }

  /** `$required_caps` for a level that may see the menus `selected`: `read` and each found capability. */
  function RequiredCaps(selected: set<string>, menu: seq<MenuItem>, stripTags: string -> string): (r: set<string>)
    ensures READ in r
    ensures forall c :: c in r && c != READ ==> exists s :: s in selected && CapFor(menu, s, stripTags) == Some(c)
    ensures forall s :: s in selected && CapFor(menu, s, stripTags).Some? ==> CapFor(menu, s, stripTags).value in r
  {
    {READ} + set s | s in selected && CapFor(menu, s, stripTags).Some? :: CapFor(menu, s, stripTags).value
  }

  /** The loop over the selected slugs that fills `$required_caps`. */
  method CollectRequiredCaps(selected: set<string>, menu: seq<MenuItem>, stripTags: string -> string)
    returns (required: set<string>)
    ensures required == RequiredCaps(selected, menu, stripTags)
  {
    required := {READ};
    var todo := selected;
    while todo != {}
      invariant todo <= selected
      invariant required == RequiredCaps(selected - todo, menu, stripTags)
      decreases |todo|
    {
      var s :| s in todo;
      var cap := FindCap(menu, s, stripTags);
      if cap.Some? {
        required := required + {cap.value};
      }
      assert RequiredCaps(selected - (todo - {s}), menu, stripTags) == required by {
        assert selected - (todo - {s}) == (selected - todo) + {s};
      }
      todo := todo - {s};
    }
  }

  /** A capability array that grants exactly `required`. */
  function Granted(required: set<string>): map<string, bool>
  {
    map c | c in required :: true
  }

  /** `has_cap`: the role holds the capability with a truthy grant. */
  predicate HasCap(caps: map<string, bool>, cap: string)
  {
    cap in caps && caps[cap]
  }

  /**
    The two loops that bring a role's capabilities in line: every capability
    not required is removed, then every required one not held is added. The
    role ends with exactly the required capabilities, each granted.
   */
  method ReconcileCaps(caps: map<string, bool>, required: set<string>) returns (r: map<string, bool>)
    ensures r == Granted(required)
  {
    r := caps;
    var held := caps.Keys;
    while held != {}
      invariant r.Keys <= caps.Keys
      invariant forall c :: c in r ==> r[c] == caps[c]
      invariant forall c :: c in caps && c !in held ==> (c in r <==> c in required)
      invariant forall c :: c in held ==> c in r
      invariant held <= caps.Keys
      decreases |held|
    {
      var c :| c in held;
      if c !in required {
        r := r - {c};
      }
      held := held - {c};
    }
    var wanted := required;
    while wanted != {}
      invariant wanted <= required
      invariant forall c :: c in r ==> c in required
      invariant forall c :: c in required && c !in wanted ==> HasCap(r, c)
      invariant forall c :: c in r && c !in wanted ==> r[c]
      decreases |wanted|
    {
      var c :| c in wanted;
      if !HasCap(r, c) {
        r := r[c := true];
      }
      wanted := wanted - {c};
    }
  }

  /** The menus a level may see according to the saved settings; none without an entry. */
  function SelectedFor(menuSettings: map<string, set<string>>, level: string): set<string>
  {
    if level in menuSettings then menuSettings[level] else {}
  }

  /** The capability array a level's role ends with: `read` and the capabilities of its selected menus, each granted. */
  function LevelCaps(menuSettings: map<string, set<string>>, menu: seq<MenuItem>, stripTags: string -> string,
                     level: string): map<string, bool>
  {
    Granted(RequiredCaps(SelectedFor(menuSettings, level), menu, stripTags))
  }

  /** The role registry after the loop has visited the first `n` levels. */
  function CapsUpdatedUpTo(levels: OrderedMap<Level>, menuSettings: map<string, set<string>>, menu: seq<MenuItem>,
                           stripTags: string -> string, roles: OrderedMap<Role>, n: nat): (r: OrderedMap<Role>)
    requires levels.Valid() && roles.Valid() && n <= |levels.keys|
    ensures r.Valid() && r.keys == roles.keys
  {
    if n == 0 then roles
    else
      var prev := CapsUpdatedUpTo(levels, menuSettings, menu, stripTags, roles, n - 1);
      var level := levels.keys[n - 1];
      if level !in prev.entries then prev
      else prev.Put(level, prev.entries[level].(caps := LevelCaps(menuSettings, menu, stripTags, level)))
  }

  /**
    After the loop, every role that is also a level holds exactly `read` and
    the capabilities of the menus selected for it, under its old name; every
    other role is as it was; no role is added or removed.
   */
  lemma {:induction false} CapsUpdatedUpToEntries(levels: OrderedMap<Level>, menuSettings: map<string, set<string>>,
                                                  menu: seq<MenuItem>, stripTags: string -> string,
                                                  roles: OrderedMap<Role>, n: nat)
    requires levels.Valid() && roles.Valid() && n <= |levels.keys|
    ensures var r := CapsUpdatedUpTo(levels, menuSettings, menu, stripTags, roles, n);
            forall k :: k in roles.entries ==>
              && k in r.entries
              && r.entries[k].name == roles.entries[k].name
              && r.entries[k].caps == (if k in levels.keys[..n]
                                       then LevelCaps(menuSettings, menu, stripTags, k)
                                       else roles.entries[k].caps)
  {
    if n > 0 {
      CapsUpdatedUpToEntries(levels, menuSettings, menu, stripTags, roles, n - 1);
      var level := levels.keys[n - 1];
      var prev := CapsUpdatedUpTo(levels, menuSettings, menu, stripTags, roles, n - 1);
      var r := CapsUpdatedUpTo(levels, menuSettings, menu, stripTags, roles, n);
      forall k | k in roles.entries
        ensures k in r.entries && r.entries[k].name == roles.entries[k].name
        ensures r.entries[k].caps == (if k in levels.keys[..n]
                                      then LevelCaps(menuSettings, menu, stripTags, k)
                                      else roles.entries[k].caps)
      {
        assert k in levels.keys[..n] <==> k in levels.keys[..n - 1] || k == level;
        assert k in prev.entries;
        if k != level {
          assert r.entries[k] == prev.entries[k];
        } else {
          assert r.entries[k] == prev.entries[k].(caps := LevelCaps(menuSettings, menu, stripTags, k));
        }
      }
    }
  }

  /**
    `update_role_caps_for_custom_levels`: nothing happens without levels;
    otherwise each level's role, when it exists, is reconciled.
   */
  method UpdateRoleCapsForCustomLevels(store: Store, menuSettings: map<string, set<string>>, menu: seq<MenuItem>,
                                       stripTags: string -> string)
    returns (roles: OrderedMap<Role>)
    requires store.Valid()
    ensures store.StoredLevels().keys == [] ==> roles == store.roles
    ensures roles == CapsUpdatedUpTo(store.StoredLevels(), menuSettings, menu, stripTags, store.roles,
                                     |store.StoredLevels().keys|)
  {
    roles := store.roles;
    var levels := store.StoredLevels();
    if levels.keys == [] {
      return;
    }
    for n := 0 to |levels.keys|
      invariant roles == CapsUpdatedUpTo(levels, menuSettings, menu, stripTags, store.roles, n)
    {
      var level := levels.keys[n];
      var required := CollectRequiredCaps(SelectedFor(menuSettings, level), menu, stripTags);
      if level !in roles.entries {
        continue;
      }
      var caps := ReconcileCaps(roles.entries[level].caps, required);
      roles := roles.Put(level, roles.entries[level].(caps := caps));
    }
  }

  /**
    The superadmin is one of the levels, so the routine reconciles its role
    too: with no menus selected for it, the superadmin role is left with
    `read` alone.
   */
  lemma SuperadminReducedToRead(store: Store, menuSettings: map<string, set<string>>, menu: seq<MenuItem>,
                                stripTags: string -> string)
    requires store.Valid()
    requires SUPERADMIN in store.StoredLevels().entries && SUPERADMIN in store.roles.entries
    requires SUPERADMIN !in menuSettings
    ensures var levels := store.StoredLevels();
            var r := CapsUpdatedUpTo(levels, menuSettings, menu, stripTags, store.roles, |levels.keys|);
            SUPERADMIN in r.entries && r.entries[SUPERADMIN].caps == map[READ := true]
  {
    var levels := store.StoredLevels();
    CapsUpdatedUpToEntries(levels, menuSettings, menu, stripTags, store.roles, |levels.keys|);
    assert levels.keys[..|levels.keys|] == levels.keys;
    var required := RequiredCaps(SelectedFor(menuSettings, SUPERADMIN), menu, stripTags);
    assert required == {READ};
  }
}
