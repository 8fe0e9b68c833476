/**
  Levels and the priority resolver.

  The `workflow_easy_levels` option maps a level slug to its name and order
  (lower order = higher priority). Before resolving, the plugin appends every
  editable WordPress role it does not already store, with order PHP_INT_MAX.
  The resolver then scans the merged array with a running minimum that starts
  at PHP_INT_MAX and moves only on a strictly smaller order. A level whose
  order is PHP_INT_MAX, and so every appended built-in role, can therefore
  never be chosen.
 */
module Levels {
  import opened Php
  import opened OrderedMaps

  const SUPERADMIN: string := "workflow_superadmin"

  /** One entry of the `workflow_easy_levels` option. */
  datatype Level = Level(name: string, order: int)

  /** `get_editable_roles()`: each role slug with its display name, when it has one. */
  type EditableRoles = OrderedMap<Option<string>>

  /** The level a built-in role is given in the merge. */
  function BuiltinLevel(slug: string, name: Option<string>, translate: string -> string): Level
  {
    Level(if name.Some? then translate(name.value) else slug, PHP_INT_MAX)
  }

  /** The merge skips the superadmin role and every role the option already stores. */
  predicate Appends(stored: OrderedMap<Level>, slug: string)
  {
    slug != SUPERADMIN && slug !in stored.entries
  }

  /** The roles of `roles` that the merge appends, in order. */
  function AppendedSlugs(stored: OrderedMap<Level>, roles: seq<string>): (r: seq<string>)
    ensures forall x :: x in r <==> x in roles && Appends(stored, x)
  {
    if roles == [] then []
    else
      var last := roles[|roles| - 1];
      AppendedSlugs(stored, roles[..|roles| - 1]) + (if Appends(stored, last) then [last] else [])
  }

  lemma AppendedSnoc(stored: OrderedMap<Level>, prev: seq<string>, slug: string)
    ensures AppendedSlugs(stored, prev + [slug]) ==
            AppendedSlugs(stored, prev) + (if Appends(stored, slug) then [slug] else [])
  {
    assert (prev + [slug])[..|prev|] == prev;
  }

  /** The merged levels after the first `n` editable roles have been visited. */
  function MergedUpTo(stored: OrderedMap<Level>, editable: EditableRoles, translate: string -> string, n: nat): (r: OrderedMap<Level>)
    requires stored.Valid() && editable.Valid() && n <= |editable.keys|
    ensures r.Valid()
  {
    if n == 0 then stored
    else MergeStep(MergedUpTo(stored, editable, translate, n - 1), editable, translate, editable.keys[n - 1])
  }

  /** One turn of the merge loop: append `slug` unless it is the superadmin role or already present. */
  function MergeStep(acc: OrderedMap<Level>, editable: EditableRoles, translate: string -> string, slug: string): (r: OrderedMap<Level>)
    requires acc.Valid() && editable.Valid() && slug in editable.entries
    ensures r.Valid()
  {
    if slug == SUPERADMIN || slug in acc.entries then acc
    else acc.Put(slug, BuiltinLevel(slug, editable.entries[slug], translate))
  }

  /** The merged keys: the stored ones, then the appended roles in `get_editable_roles` order. */
  lemma {:induction false} MergedUpToKeys(stored: OrderedMap<Level>, editable: EditableRoles, translate: string -> string, n: nat)
    requires stored.Valid() && editable.Valid() && n <= |editable.keys|
    ensures MergedUpTo(stored, editable, translate, n).keys == stored.keys + AppendedSlugs(stored, editable.keys[..n])
  {
    if n > 0 {
      MergedUpToKeys(stored, editable, translate, n - 1);
      var acc := MergedUpTo(stored, editable, translate, n - 1);
      var slug := editable.keys[n - 1];
      var prev := editable.keys[..n - 1];
      assert editable.keys[..n] == prev + [slug];
      AppendedSnoc(stored, prev, slug);
      if slug in acc.entries && slug !in stored.entries {
        NotInPrefix(editable.keys, n - 1);
        AlreadyMerged(stored, acc, prev, slug);
      }
      assert stored.keys + (AppendedSlugs(stored, prev) + [slug]) == (stored.keys + AppendedSlugs(stored, prev)) + [slug];
    }
  }

  /** A role the merge has already added came from an earlier editable role. */
  lemma AlreadyMerged(stored: OrderedMap<Level>, acc: OrderedMap<Level>, prev: seq<string>, slug: string)
    requires stored.Valid() && acc.Valid() && acc.keys == stored.keys + AppendedSlugs(stored, prev)
    requires slug in acc.entries && slug !in stored.entries
    ensures slug in prev
  {
    assert slug in acc.keys;
    assert slug !in stored.keys;
  }

  /** `r` keeps every stored entry and adds only built-in levels of editable roles. */
  ghost predicate ExtendsStored(stored: OrderedMap<Level>, editable: EditableRoles, translate: string -> string, r: OrderedMap<Level>)
  {
    && (forall k :: k in stored.entries ==> k in r.entries && r.entries[k] == stored.entries[k])
    && (forall k :: k in r.entries && k !in stored.entries ==>
          k in editable.entries && r.entries[k] == BuiltinLevel(k, editable.entries[k], translate))
  }

  lemma MergeStepExtends(stored: OrderedMap<Level>, editable: EditableRoles, translate: string -> string,
                         acc: OrderedMap<Level>, slug: string)
    requires acc.Valid() && editable.Valid() && slug in editable.entries
    requires ExtendsStored(stored, editable, translate, acc)
    ensures ExtendsStored(stored, editable, translate, MergeStep(acc, editable, translate, slug))
  {
  }

  /** The merge keeps every stored entry and adds only built-in levels of editable roles. */
  lemma {:induction false} MergedUpToEntries(stored: OrderedMap<Level>, editable: EditableRoles, translate: string -> string, n: nat)
    requires stored.Valid() && editable.Valid() && n <= |editable.keys|
    ensures ExtendsStored(stored, editable, translate, MergedUpTo(stored, editable, translate, n))
  {
    if n > 0 {
      MergedUpToEntries(stored, editable, translate, n - 1);
      var acc := MergedUpTo(stored, editable, translate, n - 1);
      KeyAt(editable, n - 1);
      MergeStepExtends(stored, editable, translate, acc, editable.keys[n - 1]);
    }
  }

  /**
    The stored levels followed by the built-in roles the merge appends: the
    stored entries keep their place and value, every appended one has order
    PHP_INT_MAX, and the superadmin role is never appended.
   */
  function Merged(stored: OrderedMap<Level>, editable: EditableRoles, translate: string -> string): (r: OrderedMap<Level>)
    requires stored.Valid() && editable.Valid()
    ensures r.Valid()
    ensures r.keys == stored.keys + AppendedSlugs(stored, editable.keys)
    ensures forall k :: k in stored.entries ==> k in r.entries && r.entries[k] == stored.entries[k]
    ensures forall k :: k in r.entries && k !in stored.entries ==>
              k != SUPERADMIN && k in editable.entries && r.entries[k].order == PHP_INT_MAX
  {
    assert editable.keys[..|editable.keys|] == editable.keys;
    MergedUpToKeys(stored, editable, translate, |editable.keys|);
    MergedUpToEntries(stored, editable, translate, |editable.keys|);
    MergedUpTo(stored, editable, translate, |editable.keys|)
  }

  /** The merge loop shared by the resolver and the CSS generator. */
  method MergeBuiltinRoles(stored: OrderedMap<Level>, editable: EditableRoles, translate: string -> string)
    returns (levels: OrderedMap<Level>)
    requires stored.Valid() && editable.Valid()
    ensures levels == Merged(stored, editable, translate)
  {
    levels := stored;
    var i := 0;
    while i < |editable.keys|
      invariant 0 <= i <= |editable.keys|
      invariant levels == MergedUpTo(stored, editable, translate, i)
    {
      var slug := editable.keys[i];
      if slug != SUPERADMIN && slug !in levels.entries {
        levels := levels.Put(slug, BuiltinLevel(slug, editable.entries[slug], translate));
      }
      i := i + 1;
    }
    assert editable.keys[..|editable.keys|] == editable.keys;
  }

  function OrderAt(levels: OrderedMap<Level>, i: int): int
    requires levels.Valid() && 0 <= i < |levels.keys|
  {
    levels.entries[levels.keys[i]].order
  }

  /** The resolver's running state: the chosen slug and the order to beat. */
  datatype Pick = Pick(slug: Option<string>, order: int)

  /** The running state after the first `n` merged levels. */
  function ScanUpTo(levels: OrderedMap<Level>, roles: set<string>, n: nat): (p: Pick)
    requires levels.Valid() && n <= |levels.keys|
    ensures p.slug.None? ==> p.order == PHP_INT_MAX
    ensures p.slug.Some? ==> p.slug.value in levels.entries && p.slug.value in roles
                             && p.order == levels.entries[p.slug.value].order < PHP_INT_MAX
  {
    if n == 0 then Pick(None, PHP_INT_MAX)
    else
      var p := ScanUpTo(levels, roles, n - 1);
      var slug := levels.keys[n - 1];
      if slug in roles && OrderAt(levels, n - 1) < p.order then Pick(Some(slug), OrderAt(levels, n - 1))
      else p
  }

  /** The slug `determine_current_level_slug` returns for a user holding `roles`. */
  function Resolved(levels: OrderedMap<Level>, roles: set<string>): Option<string>
    requires levels.Valid()
  {
    ScanUpTo(levels, roles, |levels.keys|).slug
  }

  /**
    `r` is the highest-priority level among the first `n` levels for a user
    holding `roles`: none when every held level there has order PHP_INT_MAX or
    more; otherwise a held level of order below PHP_INT_MAX whose order is the
    smallest among the held ones, and before which every held level has a
    strictly larger order (on a tie the earliest one wins).
   */
  ghost predicate HighestPriorityIn(levels: OrderedMap<Level>, roles: set<string>, n: nat, r: Option<string>)
    requires levels.Valid() && n <= |levels.keys|
  {
    match r
    case None =>
      forall i :: 0 <= i < n && levels.keys[i] in roles ==> OrderAt(levels, i) >= PHP_INT_MAX
    case Some(s) =>
      && s in levels.entries && s in levels.keys[..n] && s in roles
      && levels.entries[s].order < PHP_INT_MAX
      && (forall i :: 0 <= i < n && levels.keys[i] in roles ==> levels.entries[s].order <= OrderAt(levels, i))
      && (forall i, j :: 0 <= i < j < n && levels.keys[j] == s && levels.keys[i] in roles ==>
            levels.entries[s].order < OrderAt(levels, i))
  }

  ghost predicate HighestPriority(levels: OrderedMap<Level>, roles: set<string>, r: Option<string>)
    requires levels.Valid()
  {
    HighestPriorityIn(levels, roles, |levels.keys|, r)
  }

  lemma {:induction false} ScanIsHighestPriority(levels: OrderedMap<Level>, roles: set<string>, n: nat)
    requires levels.Valid() && n <= |levels.keys|
    ensures HighestPriorityIn(levels, roles, n, ScanUpTo(levels, roles, n).slug)
  {
    if n > 0 {
      ScanIsHighestPriority(levels, roles, n - 1);
      var p := ScanUpTo(levels, roles, n - 1);
      var slug := levels.keys[n - 1];
      assert slug in levels.keys[..n];
      if p.slug.Some? {
        var s := p.slug.value;
        var js := IndexOf(levels.keys, s, n - 1);
        assert s in levels.keys[..n];
        forall j | 0 <= j < n && levels.keys[j] == s
          ensures j == js
        {
          DistinctIndex(levels.keys, j, js);
        }
      }
      forall j | 0 <= j < n && levels.keys[j] == slug
        ensures j == n - 1
      {
        DistinctIndex(levels.keys, j, n - 1);
      }
    }
  }

  /** The resolver picks the highest-priority level, as `HighestPriority` defines it. */
  lemma ResolvedIsHighestPriority(levels: OrderedMap<Level>, roles: set<string>)
    requires levels.Valid()
    ensures HighestPriority(levels, roles, Resolved(levels, roles))
  {
    ScanIsHighestPriority(levels, roles, |levels.keys|);
  }

  lemma IndexOf(keys: seq<string>, s: string, n: nat) returns (i: nat)
    requires n <= |keys| && s in keys[..n]
    ensures i < n && keys[i] == s
  {
    i :| 0 <= i < n && keys[..n][i] == s;
  }

  /** `HighestPriority` leaves no choice: at most one answer satisfies it. */
  lemma HighestPriorityIsUnique(levels: OrderedMap<Level>, roles: set<string>, r1: Option<string>, r2: Option<string>)
    requires levels.Valid()
    requires HighestPriority(levels, roles, r1) && HighestPriority(levels, roles, r2)
    ensures r1 == r2
  {
    var n := |levels.keys|;
    forall s
      ensures HighestPriority(levels, roles, Some(s)) ==> !HighestPriority(levels, roles, None)
    {
      SomeExcludesNone(levels, roles, s);
    }
    if r1.Some? && r2.Some? {
      var i1 := IndexOf(levels.keys, r1.value, n);
      var i2 := IndexOf(levels.keys, r2.value, n);
      assert i1 == i2;
    }
  }

  /** A held level below PHP_INT_MAX rules out the answer none. */
  lemma SomeExcludesNone(levels: OrderedMap<Level>, roles: set<string>, s: string)
    requires levels.Valid()
    ensures HighestPriority(levels, roles, Some(s)) ==> !HighestPriority(levels, roles, None)
  {
    if HighestPriority(levels, roles, Some(s)) {
      var i := IndexOf(levels.keys, s, |levels.keys|);
    }
  }

  /**
    The merge never changes the answer in favour of a built-in role: the
    resolved level is always a stored one, and there is none exactly when every
    stored level the user holds has order PHP_INT_MAX or more. A user who holds
    only built-in roles, or only levels whose order was set to PHP_INT_MAX, is
    resolved to no level at all.
   */
  lemma BuiltinRolesNeverWin(stored: OrderedMap<Level>, editable: EditableRoles, translate: string -> string, roles: set<string>)
    requires stored.Valid() && editable.Valid()
    ensures var r := Resolved(Merged(stored, editable, translate), roles);
            && (r.Some? ==> r.value in stored.entries)
            && (r.None? <==> forall k :: k in stored.entries && k in roles ==> stored.entries[k].order >= PHP_INT_MAX)
  {
    var levels := Merged(stored, editable, translate);
    var r := Resolved(levels, roles);
    ResolvedIsHighestPriority(levels, roles);
    if r.None? {
      forall k | k in stored.entries && k in roles
        ensures stored.entries[k].order >= PHP_INT_MAX
      {
        var i :| 0 <= i < |stored.keys| && stored.keys[i] == k;
        assert levels.keys[i] == k;
      }
    } else {
      var i := IndexOf(levels.keys, r.value, |levels.keys|);
    }
  }

  /** Levels that open with the levels of `old_`, entries unchanged, are scanned alike up to there. */
  lemma {:induction false} ScanPrefix(old_: OrderedMap<Level>, r: OrderedMap<Level>, roles: set<string>, n: nat)
    requires old_.Valid() && r.Valid() && n <= |old_.keys| <= |r.keys|
    requires r.keys[..|old_.keys|] == old_.keys
    requires forall k :: k in old_.entries ==> r.entries[k] == old_.entries[k]
    ensures ScanUpTo(r, roles, n) == ScanUpTo(old_, roles, n)
  {
    if n > 0 {
      ScanPrefix(old_, r, roles, n - 1);
      assert r.keys[n - 1] == old_.keys[n - 1];
      KeyAt(old_, n - 1);
    }
  }

  /** Past the stored levels, every merged level has order PHP_INT_MAX and never moves the scan. */
  lemma {:induction false} ScanPastAppended(stored: OrderedMap<Level>, merged: OrderedMap<Level>, roles: set<string>, n: nat)
    requires stored.Valid() && merged.Valid() && |stored.keys| <= n <= |merged.keys|
    requires merged.keys[..|stored.keys|] == stored.keys
    requires forall k :: k in merged.entries && k !in stored.entries ==> merged.entries[k].order == PHP_INT_MAX
    ensures ScanUpTo(merged, roles, n) == ScanUpTo(merged, roles, |stored.keys|)
  {
    if n > |stored.keys| {
      ScanPastAppended(stored, merged, roles, n - 1);
      var slug := merged.keys[n - 1];
      KeyAt(merged, n - 1);
      assert slug !in stored.entries by {
        if slug in stored.entries {
          var i :| 0 <= i < |stored.keys| && stored.keys[i] == slug;
          assert merged.keys[i] == slug;
          DistinctIndex(merged.keys, i, n - 1);
        }
      }
    }
  }

  /**
    The merge does not change the resolver's answer: scanning the merged
    levels resolves exactly as scanning the stored levels alone.
   */
  lemma ResolvedMerged(stored: OrderedMap<Level>, editable: EditableRoles, translate: string -> string, roles: set<string>)
    requires stored.Valid() && editable.Valid()
    ensures Resolved(Merged(stored, editable, translate), roles) == Resolved(stored, roles)
  {
    var merged := Merged(stored, editable, translate);
    assert merged.keys[..|stored.keys|] == stored.keys;
    ScanPrefix(stored, merged, roles, |stored.keys|);
    ScanPastAppended(stored, merged, roles, |merged.keys|);
  }

  /**
    `determine_current_level_slug`: merge the editable roles into the stored
    levels, then keep the held level with the strictly smallest order, starting
    from PHP_INT_MAX.
   */
  method DetermineCurrentLevelSlug(stored: OrderedMap<Level>, editable: EditableRoles, translate: string -> string,
                                   userRoles: set<string>)
    returns (current: Option<string>)
    requires stored.Valid() && editable.Valid()
    ensures current == Resolved(Merged(stored, editable, translate), userRoles)
    ensures HighestPriority(Merged(stored, editable, translate), userRoles, current)
  {
    var levels := MergeBuiltinRoles(stored, editable, translate);
    current := None;
    var currentOrder := PHP_INT_MAX;
    var i := 0;
    while i < |levels.keys|
      invariant 0 <= i <= |levels.keys|
      invariant Pick(current, currentOrder) == ScanUpTo(levels, userRoles, i)
    {
      var slug := levels.keys[i];
      if slug in userRoles && levels.entries[slug].order < currentOrder {
        current := Some(slug);
        currentOrder := levels.entries[slug].order;
      }
      i := i + 1;
    }
    ResolvedIsHighestPriority(levels, userRoles);
  }

  /**
    `add_admin_body_class`: on a network admin page or for a superadmin the
    classes are returned as they are; otherwise ` workflow-level-<slug>` is
    appended when the resolver yields a slug PHP treats as true.
   */
  method AddAdminBodyClass(classes: string, isNetworkAdmin: bool, isSuperadmin: bool,
                           stored: OrderedMap<Level>, editable: EditableRoles, translate: string -> string,
                           userRoles: set<string>, sanitizeHtmlClass: string -> string)
    returns (r: string)
    requires stored.Valid() && editable.Valid()
    ensures |r| >= |classes| && r[..|classes|] == classes
    ensures var level := Resolved(Merged(stored, editable, translate), userRoles);
            |r| > |classes| <==> !isNetworkAdmin && !isSuperadmin && level.Some? && Truthy(level.value)
    ensures |r| > |classes| ==>
              var level := Resolved(Merged(stored, editable, translate), userRoles).value;
              && r == classes + " workflow-level-" + sanitizeHtmlClass(level)
              && HighestPriority(Merged(stored, editable, translate), userRoles, Some(level))
              && level in stored.entries
  {
    if isNetworkAdmin || isSuperadmin {
      return classes;
    }
    var level := DetermineCurrentLevelSlug(stored, editable, translate, userRoles);
    r := classes;
    if level.Some? && Truthy(level.value) {
      BuiltinRolesNeverWin(stored, editable, translate, userRoles);
      r := classes + " workflow-level-" + sanitizeHtmlClass(level.value);
    }
  }
}
