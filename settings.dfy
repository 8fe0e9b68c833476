/**
  The plugin's persistent state and the settings page's writes to it.

  The state is two options, `workflow_easy_levels` (slug to name and order)
  and `workflow_easy_menus` (level slug to the menu slugs marked visible),
  the stored plugin version, and the role registry. An option that was never
  written is `None`; `get_option($name, array())` then reads as empty.

  `handle_form_submission` runs up to four steps in a fixed order: add a
  level, save the level order, delete a level, save menu visibility. The
  first, second and fourth are guarded by `check_admin_referer`, which ends
  the request when the nonce is wrong; the delete step has no nonce check.
 */
module Settings {
  import opened Php
  import opened OrderedMaps
  import opened Levels

  const LEVEL_PREFIX: string := "workflow_"
  const EDITOR: string := "editor"
  const ADMINISTRATOR: string := "administrator"
  const SUPERADMIN_NAME: string := "Workflow Superadmin"

  /** The capabilities a role gets when the role it would copy does not exist. */
  const READ_ONLY: map<string, bool> := map["read" := true]

  /** A registered role: its display name and its capability array. */
  datatype Role = Role(name: string, caps: map<string, bool>)

  datatype Store = Store(levels: Option<OrderedMap<Level>>, menus: Option<map<string, set<string>>>,
                         version: Option<string>, roles: OrderedMap<Role>)
  {
    ghost predicate Valid()
    {
      roles.Valid() && (levels.Some? ==> levels.value.Valid())
    }

    /** `get_option('workflow_easy_levels', array())`. */
    function StoredLevels(): (r: OrderedMap<Level>)
      requires Valid()
      ensures r.Valid()
      ensures levels.None? ==> r.keys == []
    {
      levels.GetOr(Empty())
    }

    /** `get_option('workflow_easy_menus', array())`. */
    function StoredMenus(): map<string, set<string>>
    {
      menus.GetOr(map[])
    }
  }

  /** The foreign sanitisers the handlers apply to posted values. */
  datatype Sanitizers = Sanitizers(unslash: string -> string, textField: string -> string,
                                   title: string -> string, key: string -> string, toInt: string -> int)

  /** `get_role($slug)->capabilities`, or read-only when there is no such role. */
  function CapsOrReadOnly(roles: OrderedMap<Role>, slug: string): map<string, bool>
  {
    if slug in roles.entries then roles.entries[slug].caps else READ_ONLY
  }

  /** `add_role`: registers a role unless one with that slug exists, which it leaves alone. */
  function AddRole(roles: OrderedMap<Role>, slug: string, name: string, caps: map<string, bool>): (r: OrderedMap<Role>)
    requires roles.Valid()
    ensures r.Valid() && slug in r.entries
    ensures slug in roles.entries ==> r == roles
    ensures slug !in roles.entries ==> r.entries[slug] == Role(name, caps) && r.keys == roles.keys + [slug]
    ensures forall k :: k != slug ==> (k in r.entries <==> k in roles.entries)
    ensures forall k :: k != slug && k in roles.entries ==> r.entries[k] == roles.entries[k]
  {
    if slug in roles.entries then roles else roles.Put(slug, Role(name, caps))
  }

  /* ---------------------------------------------------------------- */
  /* Activation                                                       */
  /* ---------------------------------------------------------------- */

  /** The levels option the activation seeds: only the superadmin level, at order 0. */
  function SeedLevels(): (r: OrderedMap<Level>)
    ensures r.Valid() && r.keys == [SUPERADMIN] && r.entries[SUPERADMIN] == Level(SUPERADMIN_NAME, 0)
  {
    Empty<Level>().Put(SUPERADMIN, Level(SUPERADMIN_NAME, 0))
  }

  /**
    `workflow_easy_activate`, option seeding and role creation: the
    superadmin role copies the administrator's capabilities (read-only
    without an administrator) and is only created when missing; each option
    is only seeded when it is absent.
   */
  function Activate(store: Store): (r: Store)
    requires store.Valid()
    ensures r.Valid()
    ensures SUPERADMIN in r.roles.entries && r.levels.Some? && r.menus.Some?
    ensures SUPERADMIN !in store.roles.entries ==>
              r.roles.entries[SUPERADMIN] == Role(SUPERADMIN_NAME, CapsOrReadOnly(store.roles, ADMINISTRATOR))
    ensures forall k :: k in store.roles.entries ==> k in r.roles.entries && r.roles.entries[k] == store.roles.entries[k]
    ensures forall k :: k in r.roles.entries ==> k in store.roles.entries || k == SUPERADMIN
    ensures store.levels.Some? ==> r.levels == store.levels
    ensures store.levels.None? ==> r.levels == Some(SeedLevels())
    ensures store.menus.Some? ==> r.menus == store.menus
    ensures store.menus.None? ==> r.menus == Some(map[])
    ensures r.version == store.version
  {
    var caps := CapsOrReadOnly(store.roles, ADMINISTRATOR);
    store.(roles := AddRole(store.roles, SUPERADMIN, SUPERADMIN_NAME, caps),
           levels := if store.levels.None? then Some(SeedLevels()) else store.levels,
           menus := if store.menus.None? then Some(map[]) else store.menus)
  }

  /** Activating twice leaves the state as activating once. */
  lemma ActivateIdempotent(store: Store)
    requires store.Valid()
    ensures Activate(Activate(store)) == Activate(store)
  {
  }

  /* ---------------------------------------------------------------- */
  /* Add level                                                        */
  /* ---------------------------------------------------------------- */

  /** The largest order among `keys`. */
  function MaxOf(keys: seq<string>, entries: map<string, Level>): (r: int)
    requires keys != [] && forall k :: k in keys ==> k in entries
    ensures forall i :: 0 <= i < |keys| ==> entries[keys[i]].order <= r
    ensures exists i :: 0 <= i < |keys| && entries[keys[i]].order == r
  {
    var last := entries[keys[|keys| - 1]].order;
    if |keys| == 1 then last
    else
      var init := keys[..|keys| - 1];
      var m := MaxOf(init, entries);
      assert forall i :: 0 <= i < |init| ==> init[i] == keys[i];
      if m < last then last else m
  }

  /** `$orders ? max( $orders ) : 0` over the stored levels' orders. */
  function MaxOrder(levels: OrderedMap<Level>): (r: int)
    requires levels.Valid()
    ensures forall k :: k in levels.entries ==> levels.entries[k].order <= r
    ensures levels.keys != [] ==> exists k :: k in levels.entries && levels.entries[k].order == r
    ensures levels.keys == [] ==> r == 0
  {
    if levels.keys == [] then 0
    else
      var r := MaxOf(levels.keys, levels.entries);
      assert forall k :: k in levels.entries ==> exists i :: 0 <= i < |levels.keys| && levels.keys[i] == k;
      r
  }

  /** The slug a posted level name becomes. */
  function LevelSlug(name: string, san: Sanitizers): string
  {
    LEVEL_PREFIX + san.title(name)
  }

  /** The sanitised level name of the add form. */
  function PostedName(levelName: Option<string>, san: Sanitizers): string
  {
    san.textField(san.unslash(levelName.GetOr("")))
  }

  /**
    Adding a level: a falsy name or a slug already among the levels changes
    nothing. Otherwise the role is registered (copying the editor's
    capabilities, read-only without an editor) and the level is appended
    with an order one above the largest existing order (`MaxOrder`, 0 when
    there are none), so it is above every existing order.
   */
  function AddLevel(store: Store, levelName: Option<string>, san: Sanitizers): (r: Store)
    requires store.Valid()
    ensures r.Valid()
    ensures var name := PostedName(levelName, san);
            var slug := LevelSlug(name, san);
            var old_ := store.StoredLevels();
            if !Truthy(name) || slug in old_.entries then r == store
            else
              && r.menus == store.menus && r.version == store.version
              && r.roles == AddRole(store.roles, slug, name, CapsOrReadOnly(store.roles, EDITOR))
              && r.levels.Some?
              && r.levels.value.keys == old_.keys + [slug]
              && r.levels.value.entries[slug].name == name
              && r.levels.value.entries[slug].order == MaxOrder(old_) + 1
              && (forall k :: k in old_.entries ==> old_.entries[k].order < r.levels.value.entries[slug].order)
              && (forall k :: k in old_.entries ==> r.levels.value.entries[k] == old_.entries[k])
  {
    var name := PostedName(levelName, san);
    if !Truthy(name) then store
    else
      var slug := LevelSlug(name, san);
      var levels := store.StoredLevels();
      if slug in levels.entries then store
      else
        var roles := AddRole(store.roles, slug, name, CapsOrReadOnly(store.roles, EDITOR));
        store.(roles := roles, levels := Some(levels.Put(slug, Level(name, MaxOrder(levels) + 1))))
  }

  /**
    A newly added level sorts after every level that existed, so it never
    takes priority over one: the resolver, which scans the stored levels
    merged with the editable roles, picks the same level as before, or picks
    the new level only when it picked none before.
   */
  lemma AddedLevelHasLowestPriority(store: Store, levelName: Option<string>, san: Sanitizers,
                                    editable: EditableRoles, translate: string -> string, roles: set<string>)
    requires store.Valid() && editable.Valid()
    requires var name := PostedName(levelName, san);
             Truthy(name) && LevelSlug(name, san) !in store.StoredLevels().entries
    ensures var slug := LevelSlug(PostedName(levelName, san), san);
            var after := Resolved(Merged(AddLevel(store, levelName, san).StoredLevels(), editable, translate), roles);
            var before := Resolved(Merged(store.StoredLevels(), editable, translate), roles);
            && (after != Some(slug) ==> after == before)
            && (after == Some(slug) ==> before == None)
  {
    var slug := LevelSlug(PostedName(levelName, san), san);
    var old_ := store.StoredLevels();
    var r := AddLevel(store, levelName, san).StoredLevels();
    ScanAppend(old_, r, roles, slug);
    ResolvedMerged(old_, editable, translate, roles);
    ResolvedMerged(r, editable, translate, roles);
  }

  /**
    Scanning levels with one level appended, whose order is above every
    earlier order, picks the same level as before, or the appended one only
    when none was picked before.
   */
  lemma ScanAppend(old_: OrderedMap<Level>, r: OrderedMap<Level>, roles: set<string>, slug: string)
    requires old_.Valid() && r.Valid()
    requires r.keys == old_.keys + [slug] && slug !in old_.entries
    requires forall k :: k in old_.entries ==> r.entries[k] == old_.entries[k]
    requires forall k :: k in old_.entries ==> old_.entries[k].order < r.entries[slug].order
    ensures Resolved(r, roles) != Some(slug) ==> Resolved(r, roles) == Resolved(old_, roles)
    ensures Resolved(r, roles) == Some(slug) ==> Resolved(old_, roles) == None
  {
    var n := |old_.keys|;
    assert r.keys[..n] == old_.keys;
    ScanPrefix(old_, r, roles, n);
    assert r.keys[n] == slug;
  }

  /* ---------------------------------------------------------------- */
  /* Save order                                                       */
  /* ---------------------------------------------------------------- */

  /** One pass of the order loop: a posted slug that is a level gets the posted order. */
  function ReorderStep(levels: OrderedMap<Level>, slug: string, posted: string, toInt: string -> int): (r: OrderedMap<Level>)
    requires levels.Valid()
    ensures r.Valid() && r.keys == levels.keys
  {
    if slug in levels.entries then levels.Put(slug, levels.entries[slug].(order := toInt(posted))) else levels
  }

  /** The levels after the order loop has visited the first `n` posted slugs. */
  function ReorderedUpTo(levels: OrderedMap<Level>, posted: OrderedMap<string>, toInt: string -> int, n: nat): (r: OrderedMap<Level>)
    requires levels.Valid() && posted.Valid() && n <= |posted.keys|
    ensures r.Valid() && r.keys == levels.keys
  {
    if n == 0 then levels
    else
      KeyAt(posted, n - 1);
      var slug := posted.keys[n - 1];
      ReorderStep(ReorderedUpTo(levels, posted, toInt, n - 1), slug, posted.entries[slug], toInt)
  }

  function Reordered(levels: OrderedMap<Level>, posted: OrderedMap<string>, toInt: string -> int): (r: OrderedMap<Level>)
    requires levels.Valid() && posted.Valid()
    ensures r.Valid() && r.keys == levels.keys
  {
    ReorderedUpTo(levels, posted, toInt, |posted.keys|)
  }

  /**
    After the order loop, the levels are the same slugs in the same place,
    each keeps its name, a level that was posted has the posted order cast
    to an integer, and every other level is unchanged.
   */
  lemma {:induction false} ReorderedUpToEntries(levels: OrderedMap<Level>, posted: OrderedMap<string>, toInt: string -> int, n: nat)
    requires levels.Valid() && posted.Valid() && n <= |posted.keys|
    ensures var r := ReorderedUpTo(levels, posted, toInt, n);
            forall k :: k in levels.entries ==>
              && k in r.entries
              && r.entries[k].name == levels.entries[k].name
              && r.entries[k].order == (if k in posted.keys[..n] then toInt(posted.entries[k]) else levels.entries[k].order)
  {
    if n > 0 {
      ReorderedUpToEntries(levels, posted, toInt, n - 1);
      KeyAt(posted, n - 1);
      var slug := posted.keys[n - 1];
      var prev := ReorderedUpTo(levels, posted, toInt, n - 1);
      var r := ReorderedUpTo(levels, posted, toInt, n);
      forall k | k in levels.entries
        ensures k in r.entries && r.entries[k].name == levels.entries[k].name
        ensures r.entries[k].order == (if k in posted.keys[..n] then toInt(posted.entries[k]) else levels.entries[k].order)
      {
        assert k in posted.keys[..n] <==> k in posted.keys[..n - 1] || k == slug;
        if k != slug {
          assert r.entries[k] == prev.entries[k];
        }
      }
    }
  }

  lemma ReorderedEntries(levels: OrderedMap<Level>, posted: OrderedMap<string>, toInt: string -> int)
    requires levels.Valid() && posted.Valid()
    ensures var r := Reordered(levels, posted, toInt);
            && r.keys == levels.keys
            && forall k :: k in levels.entries ==>
                 && k in r.entries
                 && r.entries[k].name == levels.entries[k].name
                 && r.entries[k].order == (if k in posted.entries then toInt(posted.entries[k]) else levels.entries[k].order)
  {
    ReorderedUpToEntries(levels, posted, toInt, |posted.keys|);
    assert posted.keys[..|posted.keys|] == posted.keys;
  }

  /** The order loop of the save-order step. */
  method SaveOrder(levels: OrderedMap<Level>, posted: OrderedMap<string>, toInt: string -> int) returns (r: OrderedMap<Level>)
    requires levels.Valid() && posted.Valid()
    ensures r == Reordered(levels, posted, toInt)
  {
    r := levels;
    for i := 0 to |posted.keys|
      invariant r == ReorderedUpTo(levels, posted, toInt, i)
    {
      KeyAt(posted, i);
      var slug := posted.keys[i];
      if slug in r.entries {
        r := r.Put(slug, r.entries[slug].(order := toInt(posted.entries[slug])));
      }
    }
  }

  /* ---------------------------------------------------------------- */
  /* Delete level                                                     */
  /* ---------------------------------------------------------------- */

  /**
    Deleting a level: a falsy slug or the superadmin changes nothing.
    Otherwise the role, the level and the level's menu settings are removed
    and both options are written, whether or not the slug was a level.
   */
  function DeleteLevel(store: Store, slug: string): (r: Store)
    requires store.Valid()
    ensures r.Valid()
    ensures !Truthy(slug) || slug == SUPERADMIN ==> r == store
    ensures Truthy(slug) && slug != SUPERADMIN ==>
              && r.version == store.version
              && r.roles.entries == store.roles.entries - {slug}
              && r.levels.Some? && r.menus.Some?
              && r.levels.value.entries == store.StoredLevels().entries - {slug}
              && r.levels.value.keys == Without(store.StoredLevels().keys, slug)
              && r.menus.value == store.StoredMenus() - {slug}
  {
    if !Truthy(slug) || slug == SUPERADMIN then store
    else
      store.(roles := store.roles.Remove(slug),
             levels := Some(store.StoredLevels().Remove(slug)),
             menus := Some(store.StoredMenus() - {slug}))
  }

  /** Deleting a level keeps the other levels in their order. */
  lemma DeleteKeepsOrder(store: Store, slug: string, i: nat, j: nat)
    requires store.Valid() && Truthy(slug) && slug != SUPERADMIN
    requires var keys := DeleteLevel(store, slug).levels.value.keys; i < j < |keys|
    ensures var keys := DeleteLevel(store, slug).levels.value.keys;
            exists i', j' :: 0 <= i' < j' < |store.StoredLevels().keys|
                            && store.StoredLevels().keys[i'] == keys[i] && store.StoredLevels().keys[j'] == keys[j]
  {
    var keys := store.StoredLevels().keys;
    var i', j' := WithoutKeepsOrder(keys, slug, i, j);
  }

  lemma {:induction false} WithoutKeepsOrder(s: seq<string>, x: string, i: nat, j: nat) returns (i': nat, j': nat)
    requires i < j < |Without(s, x)|
    ensures i' < j' < |s| && s[i'] == Without(s, x)[i] && s[j'] == Without(s, x)[j]
  {
    var w := Without(s[1..], x);
    if s[0] == x {
      var a, b := WithoutKeepsOrder(s[1..], x, i, j);
      i', j' := a + 1, b + 1;
    } else if i == 0 {
      var k := IndexIn(s[1..], x, j - 1);
      i', j' := 0, k + 1;
    } else {
      var a, b := WithoutKeepsOrder(s[1..], x, i - 1, j - 1);
      i', j' := a + 1, b + 1;
    }
  }

  lemma {:induction false} IndexIn(s: seq<string>, x: string, j: nat) returns (k: nat)
    requires j < |Without(s, x)|
    ensures k < |s| && s[k] == Without(s, x)[j]
  {
    if s[0] == x {
      k := IndexIn(s[1..], x, j);
      k := k + 1;
    } else if j == 0 {
      k := 0;
    } else {
      k := IndexIn(s[1..], x, j - 1);
      k := k + 1;
    }
  }

  /* ---------------------------------------------------------------- */
  /* Save menu visibility                                             */
  /* ---------------------------------------------------------------- */

  /** The menu slugs a level's posted checkboxes name, each sanitised. */
  function Marked(slugs: seq<string>, san: Sanitizers): set<string>
  {
    set s | s in slugs :: san.textField(s)
  }

  /** What a level already has in the settings being built. */
  function SoFar(m: map<string, set<string>>, level: string): set<string>
  {
    if level in m then m[level] else {}
  }

  /**
    One pass of the outer loop: the entry under the sanitised key is reset to
    empty, then each checked slug is added under the key as posted.
   */
  function VisibilityStep(m: map<string, set<string>>, level: string, slugs: seq<string>, san: Sanitizers): map<string, set<string>>
  {
    var reset := m[san.key(level) := {}];
    if slugs == [] then reset else reset[level := SoFar(reset, level) + Marked(slugs, san)]
  }

  /** The settings built from the first `n` posted levels. */
  function VisibilityUpTo(posted: OrderedMap<seq<string>>, san: Sanitizers, n: nat): map<string, set<string>>
    requires posted.Valid() && n <= |posted.keys|
  {
    if n == 0 then map[]
    else
      KeyAt(posted, n - 1);
      var level := posted.keys[n - 1];
      VisibilityStep(VisibilityUpTo(posted, san, n - 1), level, posted.entries[level], san)
  }

  /** `$new_settings` once every posted level has been visited; nothing when no array was posted. */
  function Visibility(posted: Option<OrderedMap<seq<string>>>, san: Sanitizers): map<string, set<string>>
    requires posted.Some? ==> posted.value.Valid()
  {
    if posted.None? then map[] else VisibilityUpTo(posted.value, san, |posted.value.keys|)
  }

  /**
    The settings are replaced wholesale: a level that was not posted, under
    either its posted or its sanitised key, has no entry afterwards.
   */
  lemma {:induction false} OnlyPostedLevels(posted: OrderedMap<seq<string>>, san: Sanitizers, n: nat, level: string)
    requires posted.Valid() && n <= |posted.keys|
    requires forall i :: 0 <= i < n ==> posted.keys[i] != level && san.key(posted.keys[i]) != level
    ensures level !in VisibilityUpTo(posted, san, n)
  {
    if n > 0 {
      OnlyPostedLevels(posted, san, n - 1, level);
    }
  }

  /**
    When `sanitize_key` leaves every posted level slug as it is, the saved
    settings map each posted level to exactly the slugs checked for it.
   */
  lemma {:induction false} VisibilityWhenKeysAreClean(posted: OrderedMap<seq<string>>, san: Sanitizers, n: nat)
    requires posted.Valid() && n <= |posted.keys|
    requires forall i :: 0 <= i < n ==> san.key(posted.keys[i]) == posted.keys[i]
    ensures var m := VisibilityUpTo(posted, san, n);
            && (forall l :: l in m <==> l in posted.keys[..n])
            && (forall l :: l in m ==> m[l] == Marked(posted.entries[l], san))
  {
    if n > 0 {
      VisibilityWhenKeysAreClean(posted, san, n - 1);
      KeyAt(posted, n - 1);
      var level := posted.keys[n - 1];
      var prev := VisibilityUpTo(posted, san, n - 1);
      var slugs := posted.entries[level];
      CleanKeyStep(prev, level, slugs, san);
      assert forall l :: l in posted.keys[..n] <==> l in posted.keys[..n - 1] || l == level;
    }
  }

  /** With a clean key, one pass of the outer loop sets the level's entry to its checked slugs. */
  lemma CleanKeyStep(m: map<string, set<string>>, level: string, slugs: seq<string>, san: Sanitizers)
    requires san.key(level) == level
    ensures VisibilityStep(m, level, slugs, san) == m[level := Marked(slugs, san)]
  {
    if slugs == [] {
      assert Marked(slugs, san) == {};
    } else {
      assert SoFar(m[level := {}], level) + Marked(slugs, san) == Marked(slugs, san);
    }
  }

  /**
    When `sanitize_key` changes a posted level slug, the checked slugs are
    saved under the slug as posted and an empty entry appears under the
    sanitised one.
   */
  lemma UnsanitisedKeyKeepsSelection(level: string, slugs: seq<string>, san: Sanitizers)
    requires san.key(level) != level && slugs != []
    ensures var posted := Empty<seq<string>>().Put(level, slugs);
            VisibilityUpTo(posted, san, 1) == map[san.key(level) := {}, level := Marked(slugs, san)]
  {
    var posted := Empty<seq<string>>().Put(level, slugs);
    assert posted.keys[0] == level;
    assert SoFar(map[san.key(level) := {}], level) + Marked(slugs, san) == Marked(slugs, san);
  }

  /** The save-visibility step's loops, building `$new_settings` from the posted checkboxes. */
  method SaveVisibility(posted: Option<OrderedMap<seq<string>>>, san: Sanitizers) returns (settings: map<string, set<string>>)
    requires posted.Some? ==> posted.value.Valid()
    ensures settings == Visibility(posted, san)
  {
    settings := map[];
    if posted.None? {
      return;
    }
    var form := posted.value;
    for n := 0 to |form.keys|
      invariant settings == VisibilityUpTo(form, san, n)
    {
      KeyAt(form, n);
      var level := form.keys[n];
      settings := settings[san.key(level) := {}];
      settings := MarkSlugs(settings, level, form.entries[level], san);
    }
  }

  /** The inner loop: each checked slug, sanitised, is added to the level's entry as posted. */
  method MarkSlugs(m: map<string, set<string>>, level: string, slugs: seq<string>, san: Sanitizers)
    returns (settings: map<string, set<string>>)
    ensures slugs == [] ==> settings == m
    ensures slugs != [] ==> settings == m[level := SoFar(m, level) + Marked(slugs, san)]
  {
    settings := m;
    for j := 0 to |slugs|
      invariant j == 0 ==> settings == m
      invariant j > 0 ==> settings == m[level := SoFar(m, level) + Marked(slugs[..j], san)]
    {
      var marked := Marked(slugs[..j + 1], san);
      assert marked == Marked(slugs[..j], san) + {san.textField(slugs[j])} by {
        assert forall s :: s in slugs[..j + 1] <==> s in slugs[..j] || s == slugs[j];
      }
      if j == 0 {
        assert marked == {san.textField(slugs[j])};
      } else {
        assert SoFar(settings, level) == SoFar(m, level) + Marked(slugs[..j], san);
        assert SoFar(settings, level) + {san.textField(slugs[j])} == SoFar(m, level) + marked;
      }
      settings := settings[level := SoFar(settings, level) + {san.textField(slugs[j])}];
    }
    assert slugs[..|slugs|] == slugs;
  }


  /* ---------------------------------------------------------------- */
  /* The form handler                                                 */
  /* ---------------------------------------------------------------- */

  datatype AddForm = AddForm(nonceOk: bool, levelName: Option<string>)
  /** `level_order` is `None` when it is missing or not an array. */
  datatype OrderForm = OrderForm(nonceOk: bool, levelOrder: Option<OrderedMap<string>>)
  /** `workflow_easy_menu` is `None` when it is missing or not an array. */
  datatype MenusForm = MenusForm(nonceOk: bool, menu: Option<OrderedMap<seq<string>>>)

  /** The submit buttons present in `$_POST`, with what each form posts. */
  datatype Request = Request(add: Option<AddForm>, order: Option<OrderForm>, delete: Option<string>, menus: Option<MenusForm>)
  {
    ghost predicate Valid()
    {
      && (order.Some? && order.value.levelOrder.Some? ==> order.value.levelOrder.value.Valid())
      && (menus.Some? && menus.value.menu.Some? ==> menus.value.menu.value.Valid())
    }
  }

  /** The state after a submission, and whether a failed nonce check ended the request. */
  datatype Submission = Submission(store: Store, died: bool)

  /** The save-order step applied to the store. */
  function OrderSaved(store: Store, levelOrder: Option<OrderedMap<string>>, toInt: string -> int): (r: Store)
    requires store.Valid() && (levelOrder.Some? ==> levelOrder.value.Valid())
    ensures r.Valid()
  {
    if levelOrder.None? then store
    else store.(levels := Some(Reordered(store.StoredLevels(), levelOrder.value, toInt)))
  }

  /** The save-visibility step applied to the store. */
  function MenusSaved(store: Store, menu: Option<OrderedMap<seq<string>>>, san: Sanitizers): (r: Store)
    requires store.Valid() && (menu.Some? ==> menu.value.Valid())
    ensures r.Valid()
  {
    store.(menus := Some(Visibility(menu, san)))
  }

  /** `handle_form_submission` as a sequence of steps, each stopping the request on a failed nonce. */
  function Submitted(store: Store, req: Request, san: Sanitizers): (r: Submission)
    requires store.Valid() && req.Valid()
    ensures r.store.Valid()
    ensures r.store.version == store.version
  {
    if req.add.Some? && !req.add.value.nonceOk then Submission(store, true)
    else
      var s1 := if req.add.Some? then AddLevel(store, req.add.value.levelName, san) else store;
      if req.order.Some? && !req.order.value.nonceOk then Submission(s1, true)
      else
        var s2 := if req.order.Some? then OrderSaved(s1, req.order.value.levelOrder, san.toInt) else s1;
        var s3 := if req.delete.Some? then DeleteLevel(s2, san.textField(san.unslash(req.delete.value))) else s2;
        if req.menus.Some? && !req.menus.value.nonceOk then Submission(s3, true)
        else
          var s4 := if req.menus.Some? then MenusSaved(s3, req.menus.value.menu, san) else s3;
          Submission(s4, false)
  }

  /**
    A delete request takes effect without any nonce: posted alone, it
    deletes the level whatever the other forms' nonces would have been.
   */
  lemma DeleteNeedsNoNonce(store: Store, slug: string, san: Sanitizers)
    requires store.Valid()
    ensures Submitted(store, Request(None, None, Some(slug), None), san)
            == Submission(DeleteLevel(store, san.textField(san.unslash(slug))), false)
  {
  }

  /** Saving the same visibility form twice leaves the state as saving it once. */
  lemma SaveVisibilityIdempotent(store: Store, form: MenusForm, san: Sanitizers)
    requires store.Valid() && form.nonceOk && (form.menu.Some? ==> form.menu.value.Valid())
    ensures var req := Request(None, None, None, Some(form));
            Submitted(Submitted(store, req, san).store, req, san) == Submitted(store, req, san)
  {
  }

  /**
    The handler: each present form in turn; a failed nonce check ends the
    request with the writes made so far.
   */
  method HandleFormSubmission(store: Store, req: Request, san: Sanitizers) returns (r: Store, died: bool)
    requires store.Valid() && req.Valid()
    ensures Submission(r, died) == Submitted(store, req, san)
  {
    r := store;
    died := false;
    if req.add.Some? {
      if !req.add.value.nonceOk {
        died := true;
        return;
      }
      r := AddLevel(r, req.add.value.levelName, san);
    }
    if req.order.Some? {
      if !req.order.value.nonceOk {
        died := true;
        return;
      }
      if req.order.value.levelOrder.Some? {
        var levels := SaveOrder(r.StoredLevels(), req.order.value.levelOrder.value, san.toInt);
        r := r.(levels := Some(levels));
      }
    }
    if req.delete.Some? {
      r := DeleteLevel(r, san.textField(san.unslash(req.delete.value)));
    }
    if req.menus.Some? {
      if !req.menus.value.nonceOk {
        died := true;
        return;
      }
      var settings := SaveVisibility(req.menus.value.menu, san);
      r := r.(menus := Some(settings));
    }
  }
}
