/**
  `maybe_run_update` and the first two passes of `cleanup_stale_data`.

  The first pass drops every level whose role no longer exists, together with
  its menu settings, and writes both options only when it dropped something.
  The second pass removes every `workflow_` role other than the superadmin
  that is not a level (after the first pass), with its menu settings.
 */
module Upgrade {
  import opened Php
  import opened OrderedMaps
  import opened Levels
  import opened Settings

  const CURRENT_VERSION: string := "1.9.0"

  /** `if (isset($menus[$slug])) unset($menus[$slug]);` */
  function Unset(menus: map<string, set<string>>, slug: string): (r: map<string, set<string>>)
    ensures r == menus - {slug}
  {
    if slug in menus then menus - {slug} else menus
  }

  /* ---------------------------------------------------------------- */
  /* First pass: levels without a role                                */
  /* ---------------------------------------------------------------- */

  /** The local `$levels`, `$menus` and `$dirty` of the first pass. */
  datatype Pruning = Pruning(levels: OrderedMap<Level>, menus: map<string, set<string>>, dirty: bool)

  /** The first pass after visiting the first `n` stored levels. */
  function PrunedUpTo(levels: OrderedMap<Level>, menus: map<string, set<string>>, roles: OrderedMap<Role>, n: nat): (r: Pruning)
    requires levels.Valid() && n <= |levels.keys|
    ensures r.levels.Valid()
  {
    if n == 0 then Pruning(levels, menus, false)
    else
      var p := PrunedUpTo(levels, menus, roles, n - 1);
      var slug := levels.keys[n - 1];
      if slug in roles.entries then p
      else Pruning(p.levels.Remove(slug), Unset(p.menus, slug), true)
  }

  /** A level survives the pass unless it was visited and has no role. */
  predicate Dropped(levels: OrderedMap<Level>, roles: OrderedMap<Role>, n: nat, k: string)
    requires n <= |levels.keys|
  {
    k in levels.keys[..n] && k !in roles.entries
  }

  /**
    After visiting the first `n` levels, the levels and menu settings are the
    stored ones less the visited levels without a role.
   */
  lemma {:induction false} PrunedUpToEntries(levels: OrderedMap<Level>, menus: map<string, set<string>>,
                                             roles: OrderedMap<Role>, n: nat)
    requires levels.Valid() && n <= |levels.keys|
    ensures var p := PrunedUpTo(levels, menus, roles, n);
            forall k ::
              && (k in p.levels.entries <==> k in levels.entries && !Dropped(levels, roles, n, k))
              && (k in p.levels.entries ==> p.levels.entries[k] == levels.entries[k])
              && (k in p.menus <==> k in menus && !Dropped(levels, roles, n, k))
              && (k in p.menus ==> p.menus[k] == menus[k])
  {
    if n > 0 {
      PrunedUpToEntries(levels, menus, roles, n - 1);
      var slug := levels.keys[n - 1];
      var prev := PrunedUpTo(levels, menus, roles, n - 1);
      var p := PrunedUpTo(levels, menus, roles, n);
      forall k
        ensures k in p.levels.entries <==> k in levels.entries && !Dropped(levels, roles, n, k)
        ensures k in p.levels.entries ==> p.levels.entries[k] == levels.entries[k]
        ensures k in p.menus <==> k in menus && !Dropped(levels, roles, n, k)
        ensures k in p.menus ==> p.menus[k] == menus[k]
      {
        assert k in levels.keys[..n] <==> k in levels.keys[..n - 1] || k == slug;
        if k != slug || slug in roles.entries {
          assert k in p.levels.entries <==> k in prev.levels.entries;
          assert k in p.menus <==> k in prev.menus;
        }
      }
    }
  }

  /** The pass is dirty exactly when it met a level without a role; a clean pass changed nothing. */
  lemma {:induction false} PrunedUpToDirty(levels: OrderedMap<Level>, menus: map<string, set<string>>,
                                           roles: OrderedMap<Role>, n: nat)
    requires levels.Valid() && n <= |levels.keys|
    ensures var p := PrunedUpTo(levels, menus, roles, n);
            && (p.dirty <==> exists i :: 0 <= i < n && levels.keys[i] !in roles.entries)
            && (!p.dirty ==> p.levels == levels && p.menus == menus)
  {
    if n > 0 {
      PrunedUpToDirty(levels, menus, roles, n - 1);
    }
  }

  /* ---------------------------------------------------------------- */
  /* Second pass: orphaned roles                                      */
  /* ---------------------------------------------------------------- */

  /** A role the second pass removes: a `workflow_` role, not the superadmin, that is not a level. */
  predicate Orphan(slug: string, levels: OrderedMap<Level>)
  {
    StartsWith(slug, LEVEL_PREFIX) && slug != SUPERADMIN && slug !in levels.entries
  }

  /** The roles and `$menus` of the second pass, and whether it wrote the menus option. */
  datatype Sweep = Sweep(roles: OrderedMap<Role>, menus: map<string, set<string>>, wrote: bool)

  /** The second pass after visiting the first `n` registered roles. */
  function SweptUpTo(roles: OrderedMap<Role>, levels: OrderedMap<Level>, menus: map<string, set<string>>, n: nat): (r: Sweep)
    requires roles.Valid() && n <= |roles.keys|
    ensures r.roles.Valid()
  {
    if n == 0 then Sweep(roles, menus, false)
    else
      var p := SweptUpTo(roles, levels, menus, n - 1);
      var slug := roles.keys[n - 1];
      if !Orphan(slug, levels) then p
      else Sweep(p.roles.Remove(slug), Unset(p.menus, slug), p.wrote || slug in p.menus)
  }

  predicate Swept(roles: OrderedMap<Role>, levels: OrderedMap<Level>, n: nat, k: string)
    requires n <= |roles.keys|
  {
    k in roles.keys[..n] && Orphan(k, levels)
  }

  /** After visiting the first `n` roles, the visited orphans are gone and every other role is kept. */
  lemma {:induction false} SweptUpToRoles(roles: OrderedMap<Role>, levels: OrderedMap<Level>,
                                          menus: map<string, set<string>>, n: nat)
    requires roles.Valid() && n <= |roles.keys|
    ensures var p := SweptUpTo(roles, levels, menus, n);
            forall k ::
              && (k in p.roles.entries <==> k in roles.entries && !Swept(roles, levels, n, k))
              && (k in p.roles.entries ==> p.roles.entries[k] == roles.entries[k])
  {
    if n > 0 {
      SweptUpToRoles(roles, levels, menus, n - 1);
      var slug := roles.keys[n - 1];
      var prev := SweptUpTo(roles, levels, menus, n - 1).roles;
      var r := SweptUpTo(roles, levels, menus, n).roles;
      forall k
        ensures k in r.entries <==> k in roles.entries && !Swept(roles, levels, n, k)
        ensures k in r.entries ==> r.entries[k] == roles.entries[k]
      {
        assert k in roles.keys[..n] <==> k in roles.keys[..n - 1] || k == slug;
        if k != slug || !Orphan(slug, levels) {
          assert k in r.entries <==> k in prev.entries;
        }
      }
    }
  }

  /** After visiting the first `n` roles, the visited orphans' menu settings are gone and the rest are kept. */
  lemma {:induction false} SweptUpToMenus(roles: OrderedMap<Role>, levels: OrderedMap<Level>,
                                          menus: map<string, set<string>>, n: nat)
    requires roles.Valid() && n <= |roles.keys|
    ensures var p := SweptUpTo(roles, levels, menus, n);
            forall k ::
              && (k in p.menus <==> k in menus && !Swept(roles, levels, n, k))
              && (k in p.menus ==> p.menus[k] == menus[k])
  {
    if n > 0 {
      SweptUpToMenus(roles, levels, menus, n - 1);
      var slug := roles.keys[n - 1];
      var prev := SweptUpTo(roles, levels, menus, n - 1).menus;
      var m := SweptUpTo(roles, levels, menus, n).menus;
      forall k
        ensures k in m <==> k in menus && !Swept(roles, levels, n, k)
        ensures k in m ==> m[k] == menus[k]
      {
        assert k in roles.keys[..n] <==> k in roles.keys[..n - 1] || k == slug;
        if k != slug || !Orphan(slug, levels) {
          assert k in m <==> k in prev;
        }
      }
    }
  }

  /**
    The menus option is written exactly when an orphan had menu settings,
    and a pass that met no orphan changed nothing.
   */
  lemma {:induction false} SweptUpToWrote(roles: OrderedMap<Role>, levels: OrderedMap<Level>,
                                          menus: map<string, set<string>>, n: nat)
    requires roles.Valid() && n <= |roles.keys|
    ensures var p := SweptUpTo(roles, levels, menus, n);
            && (p.wrote <==> exists i :: 0 <= i < n && Orphan(roles.keys[i], levels) && roles.keys[i] in menus)
            && ((forall i :: 0 <= i < n ==> !Orphan(roles.keys[i], levels)) ==> p.roles == roles && p.menus == menus)
  {
    if n > 0 {
      SweptUpToWrote(roles, levels, menus, n - 1);
      SweptUpToMenus(roles, levels, menus, n - 1);
      var slug := roles.keys[n - 1];
      var prev := SweptUpTo(roles, levels, menus, n - 1);
      var p := SweptUpTo(roles, levels, menus, n);
      NotInPrefix(roles.keys, n - 1);
      assert slug in prev.menus <==> slug in menus;
      assert p.wrote <==> prev.wrote || (Orphan(slug, levels) && slug in menus);
      if p.wrote && !prev.wrote {
        assert 0 <= n - 1 < n && Orphan(roles.keys[n - 1], levels) && roles.keys[n - 1] in menus;
      }
    }
  }

  /** A pass that did not write the menus option left the menu settings as they were. */
  lemma {:induction false} SweptUpToQuiet(roles: OrderedMap<Role>, levels: OrderedMap<Level>,
                                          menus: map<string, set<string>>, n: nat)
    requires roles.Valid() && n <= |roles.keys|
    ensures var p := SweptUpTo(roles, levels, menus, n);
            !p.wrote ==> p.menus == menus
  {
    if n > 0 {
      SweptUpToQuiet(roles, levels, menus, n - 1);
    }
  }

  /* ---------------------------------------------------------------- */
  /* The cleanup                                                      */
  /* ---------------------------------------------------------------- */

  /** The state after the first two passes of `cleanup_stale_data`. */
  function Cleaned(store: Store): (r: Store)
    requires store.Valid()
    ensures r.Valid() && r.version == store.version
  {
    var levels := store.StoredLevels();
    var p := PrunedUpTo(levels, store.StoredMenus(), store.roles, |levels.keys|);
    var s1 := if p.dirty then store.(levels := Some(p.levels), menus := Some(p.menus)) else store;
    var w := SweptUpTo(store.roles, p.levels, p.menus, |store.roles.keys|);
    s1.(roles := w.roles, menus := if w.wrote then Some(w.menus) else s1.menus)
  }

  /** The first pass's levels are those the cleaned state reads back. */
  lemma CleanedLevels(store: Store)
    requires store.Valid()
    ensures var levels := store.StoredLevels();
            Cleaned(store).StoredLevels() == PrunedUpTo(levels, store.StoredMenus(), store.roles, |levels.keys|).levels
  {
    var levels := store.StoredLevels();
    PrunedUpToDirty(levels, store.StoredMenus(), store.roles, |levels.keys|);
  }

  /** The second pass's menu settings are those the cleaned state reads back. */
  lemma CleanedMenus(store: Store)
    requires store.Valid()
    ensures var levels := store.StoredLevels();
            var p := PrunedUpTo(levels, store.StoredMenus(), store.roles, |levels.keys|);
            Cleaned(store).StoredMenus() == SweptUpTo(store.roles, p.levels, p.menus, |store.roles.keys|).menus
  {
    var levels := store.StoredLevels();
    var p := PrunedUpTo(levels, store.StoredMenus(), store.roles, |levels.keys|);
    var n := |store.roles.keys|;
    var w := SweptUpTo(store.roles, p.levels, p.menus, n);
    PrunedUpToDirty(levels, store.StoredMenus(), store.roles, |levels.keys|);
    SweptUpToQuiet(store.roles, p.levels, p.menus, n);
  }

  /**
    The cleanup only removes: what it keeps is unchanged, and a menu setting
    it drops belonged to a level without a role or to a role it removed.
   */
  lemma CleanupOnlyRemoves(store: Store)
    requires store.Valid()
    ensures var r := Cleaned(store);
            && (forall k :: k in r.roles.entries ==> k in store.roles.entries && r.roles.entries[k] == store.roles.entries[k])
            && (forall k :: k in r.StoredLevels().entries ==>
                  k in store.StoredLevels().entries && r.StoredLevels().entries[k] == store.StoredLevels().entries[k])
            && (forall k :: k in r.StoredMenus() ==> k in store.StoredMenus() && r.StoredMenus()[k] == store.StoredMenus()[k])
            && (forall k :: k in store.StoredMenus() && k !in r.StoredMenus() ==>
                  (k in store.StoredLevels().entries && k !in store.roles.entries)
                  || (k in store.roles.entries && k !in r.roles.entries))
  {
    var levels := store.StoredLevels();
    var menus := store.StoredMenus();
    PrunedUpToEntries(levels, menus, store.roles, |levels.keys|);
    var p := PrunedUpTo(levels, menus, store.roles, |levels.keys|);
    SweptUpToRoles(store.roles, p.levels, p.menus, |store.roles.keys|);
    SweptUpToMenus(store.roles, p.levels, p.menus, |store.roles.keys|);
    CleanedLevels(store);
    CleanedMenus(store);
  }

  /**
    After the cleanup every level has a role, and every `workflow_` role
    other than the superadmin is a level.
   */
  lemma CleanupConsistent(store: Store)
    requires store.Valid()
    ensures var r := Cleaned(store);
            && (forall k :: k in r.StoredLevels().entries ==> k in r.roles.entries)
            && (forall k :: k in r.roles.entries && StartsWith(k, LEVEL_PREFIX) && k != SUPERADMIN ==> k in r.StoredLevels().entries)
  {
    var levels := store.StoredLevels();
    var menus := store.StoredMenus();
    PrunedUpToEntries(levels, menus, store.roles, |levels.keys|);
    PrunedUpToDirty(levels, menus, store.roles, |levels.keys|);
    assert levels.keys[..|levels.keys|] == levels.keys;
    var p := PrunedUpTo(levels, menus, store.roles, |levels.keys|);
    SweptUpToRoles(store.roles, p.levels, p.menus, |store.roles.keys|);
    assert store.roles.keys[..|store.roles.keys|] == store.roles.keys;
    CleanedLevels(store);
  }

  /** Running the cleanup on a cleaned state changes nothing. */
  lemma CleanupIdempotent(store: Store)
    requires store.Valid()
    ensures Cleaned(Cleaned(store)) == Cleaned(store)
  {
    var s := Cleaned(store);
    CleanupConsistent(store);
    var levels := s.StoredLevels();
    var menus := s.StoredMenus();
    PrunedUpToDirty(levels, menus, s.roles, |levels.keys|);
    var p := PrunedUpTo(levels, menus, s.roles, |levels.keys|);
    assert !p.dirty by {
      forall i | 0 <= i < |levels.keys|
        ensures levels.keys[i] in s.roles.entries
      {
        KeyAt(levels, i);
      }
    }
    SweptUpToWrote(s.roles, p.levels, p.menus, |s.roles.keys|);
    forall i | 0 <= i < |s.roles.keys|
      ensures !Orphan(s.roles.keys[i], p.levels)
    {
      KeyAt(s.roles, i);
    }
  }

  /** The first pass's loop over the stored levels. */
  method PruneLevels(levels: OrderedMap<Level>, menus: map<string, set<string>>, roles: OrderedMap<Role>)
    returns (p: Pruning)
    requires levels.Valid()
    ensures p == PrunedUpTo(levels, menus, roles, |levels.keys|)
  {
    p := Pruning(levels, menus, false);
    for i := 0 to |levels.keys|
      invariant p == PrunedUpTo(levels, menus, roles, i)
    {
      var slug := levels.keys[i];
      if slug !in roles.entries {
        var m := p.menus;
        if slug in m {
          m := m - {slug};
        }
        p := Pruning(p.levels.Remove(slug), m, true);
      }
    }
  }

  /**
    The second pass's loop over the registered roles. The source writes the
    menus option each time it drops an entry; the last such write is the one
    that remains, and `wrote` tells whether there was one.
   */
  method SweepRoles(roles: OrderedMap<Role>, levels: OrderedMap<Level>, menus: map<string, set<string>>)
    returns (w: Sweep)
    requires roles.Valid()
    ensures w == SweptUpTo(roles, levels, menus, |roles.keys|)
  {
    w := Sweep(roles, menus, false);
    for i := 0 to |roles.keys|
      invariant w == SweptUpTo(roles, levels, menus, i)
    {
      var slug := roles.keys[i];
      if StartsWith(slug, LEVEL_PREFIX) && slug != SUPERADMIN {
        if slug !in levels.entries {
          var m := w.menus;
          var wrote := w.wrote;
          if slug in m {
            m := m - {slug};
            wrote := true;
          }
          w := Sweep(w.roles.Remove(slug), m, wrote);
        }
      }
    }
  }

  /** `cleanup_stale_data`, first two passes: prune the levels, write them back if dirty, then sweep the roles. */
  method CleanupStaleData(store: Store) returns (r: Store)
    requires store.Valid()
    ensures r == Cleaned(store)
  {
    r := store;
    var p := PruneLevels(store.StoredLevels(), store.StoredMenus(), store.roles);
    if p.dirty {
      r := r.(levels := Some(p.levels), menus := Some(p.menus));
    }
    var w := SweepRoles(store.roles, p.levels, p.menus);
    if w.wrote {
      r := r.(menus := Some(w.menus));
    }
    r := r.(roles := w.roles);
  }

  /** `maybe_run_update` on the state: nothing when the stored version is current. */
  function Updated(store: Store): (r: Store)
    requires store.Valid()
    ensures r.Valid() && r.version == Some(CURRENT_VERSION)
  {
    if store.version == Some(CURRENT_VERSION) then store
    else Cleaned(store).(version := Some(CURRENT_VERSION))
  }

  /** The update runs once: a second call finds the current version and does nothing. */
  lemma UpdateRunsOnce(store: Store)
    requires store.Valid()
    ensures Updated(Updated(store)) == Updated(store)
  {
  }

  /** After an update the levels and the plugin's roles agree. */
  lemma UpdatedConsistent(store: Store)
    requires store.Valid() && store.version != Some(CURRENT_VERSION)
    ensures var r := Updated(store);
            && (forall k :: k in r.StoredLevels().entries ==> k in r.roles.entries)
            && (forall k :: k in r.roles.entries && StartsWith(k, LEVEL_PREFIX) && k != SUPERADMIN ==> k in r.StoredLevels().entries)
  {
    CleanupConsistent(store);
  }

  /** `maybe_run_update`: when the stored version differs, clean up and record the current version. */
  method MaybeRunUpdate(store: Store) returns (r: Store)
    requires store.Valid()
    ensures r == Updated(store)
  {
    if store.version == Some(CURRENT_VERSION) {
      return store;
    }
    r := CleanupStaleData(store);
    r := r.(version := Some(CURRENT_VERSION));
  }
}
