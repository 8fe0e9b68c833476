/**
  The inline style sheet `output_visibility_css` prints in the admin head.

  For every merged level (stored levels, then the appended built-in roles)
  the generator collects the ids of the listed menu items that level may not
  see, and emits one rule `.workflow-level-<level> #<id>,… {display:none
  !important;}`. The dashboard and the plugin's own page are never hidden.
  The body class added by `Levels.AddAdminBodyClass` makes the rule of the
  user's level apply.
 */
module VisibilityCss {
  import opened Php
  import opened OrderedMaps
  import opened Levels
  import opened AdminMenu

  const DASHBOARD: string := "index.php"
  const SETTINGS_PAGE: string := "workflow-easy"
  const LEVEL_CLASS: string := ".workflow-level-"

  /** The declaration block that hides an item. */
  const HIDE_BLOCK: string := "{display:none !important;}"

  /** The intended end of every rule: the declaration block and a line feed. */
  const RULE_END: string := HIDE_BLOCK + "\n"

  /**
    The end of every rule as the source writes it, in single quotes, where
    `\n` is a backslash followed by the letter n rather than a line feed.
   */
  const RULE_END_AS_WRITTEN: string := HIDE_BLOCK + "\\n"

  const STYLE_OPEN: string := "<style id='workflow-easy-visibility-css'>\n"
  const STYLE_CLOSE: string := "</style>\n"

  /** The menus the settings page marked visible for `level`; none when it has no entry. */
  function Allowed(menus: map<string, set<string>>, level: string): set<string>
  {
    if level in menus then menus[level] else {}
  }

  /** A listed slug is hidden from a level unless it is the dashboard, the plugin's page, or allowed. */
  predicate Hidden(slug: string, allowed: set<string>)
  {
    slug != DASHBOARD && slug != SETTINGS_PAGE && slug !in allowed
  }

  /** The available slugs hidden from a level, in menu order. */
  function HiddenSlugs(available: seq<string>, allowed: set<string>): (r: seq<string>)
    ensures forall s :: s in r <==> s in available && s != DASHBOARD && s != SETTINGS_PAGE && s !in allowed
  {
    if available == [] then []
    else
      var last := available[|available| - 1];
      HiddenSlugs(available[..|available| - 1], allowed) + (if Hidden(last, allowed) then [last] else [])
  }

  /** `$hide_ids` for one level: the id of every hidden slug that has one, in menu order. */
  function HideIds(available: seq<string>, allowed: set<string>, ids: map<string, string>): (r: seq<string>)
    ensures |r| <= |available|
  {
    if available == [] then []
    else
      var last := available[|available| - 1];
      HideIds(available[..|available| - 1], allowed, ids)
        + (if Hidden(last, allowed) && last in ids then [ids[last]] else [])
  }

  /**
    When every available slug has an id, as the generator's own walk over the
    menu guarantees, the ids hidden are exactly those of the hidden slugs.
   */
  lemma {:induction false} HideIdsOfHiddenSlugs(available: seq<string>, allowed: set<string>, ids: map<string, string>)
    requires forall s :: s in available ==> s in ids
    ensures var h := HiddenSlugs(available, allowed);
            var r := HideIds(available, allowed, ids);
            |r| == |h| && forall i :: 0 <= i < |h| ==> r[i] == ids[h[i]]
  {
    if available != [] {
      var prev := available[..|available| - 1];
      assert forall s :: s in prev ==> s in available;
      HideIdsOfHiddenSlugs(prev, allowed, ids);
    }
  }

  /** `'.workflow-level-' . esc_attr($level) . ' #' . esc_attr($id)` for each hidden id. */
  function Selectors(level: string, hideIds: seq<string>, esc: string -> string): (r: seq<string>)
    ensures |r| == |hideIds|
    ensures forall i :: 0 <= i < |r| ==> r[i] == LEVEL_CLASS + esc(level) + " #" + esc(hideIds[i])
  {
    if hideIds == [] then []
    else Selectors(level, hideIds[..|hideIds| - 1], esc) + [LEVEL_CLASS + esc(level) + " #" + esc(hideIds[|hideIds| - 1])]
  }

  /** `implode(',', $parts)`. */
  function Join(parts: seq<string>): (r: string)
    ensures parts != [] ==> StartsWith(r, parts[0])
  {
    if parts == [] then ""
    else if |parts| == 1 then parts[0]
    else
      var init := Join(parts[..|parts| - 1]);
      assert parts[..|parts| - 1][0] == parts[0];
      init + "," + parts[|parts| - 1]
  }

  /** The first selector of a level's rule: the level's body class, then the id. */
  function FirstSelector(level: string, hideIds: seq<string>, esc: string -> string): string
    requires hideIds != []
  {
    LEVEL_CLASS + esc(level) + " #" + esc(hideIds[0])
  }

  /**
    The rule for one level: nothing when it hides nothing, otherwise its
    selectors followed by `ruleEnd`.
   */
  function RuleFor(level: string, hideIds: seq<string>, esc: string -> string, ruleEnd: string): (r: string)
    requires ruleEnd != ""
    ensures r == "" <==> hideIds == []
    ensures hideIds != [] ==> EndsWith(r, ruleEnd)
  {
    if hideIds == [] then "" else Join(Selectors(level, hideIds, esc)) + ruleEnd
  }

  /** A level's rule opens with its first selector. */
  lemma RuleStartsWithFirstSelector(level: string, hideIds: seq<string>, esc: string -> string, ruleEnd: string)
    requires ruleEnd != "" && hideIds != []
    ensures StartsWith(RuleFor(level, hideIds, esc, ruleEnd), FirstSelector(level, hideIds, esc))
  {
    var parts := Selectors(level, hideIds, esc);
    StartsWithConcat(Join(parts), ruleEnd, parts[0]);
  }

  /** The style sheet for the levels `levelKeys`, in that order, each rule closed by `ruleEnd`. */
  function CssText(levelKeys: seq<string>, menus: map<string, set<string>>, available: seq<string>,
                   ids: map<string, string>, esc: string -> string, ruleEnd: string): (r: string)
    requires ruleEnd != ""
    ensures r != "" ==> EndsWith(r, ruleEnd)
  {
    if levelKeys == [] then ""
    else
      var level := levelKeys[|levelKeys| - 1];
      CssText(levelKeys[..|levelKeys| - 1], menus, available, ids, esc, ruleEnd)
        + RuleFor(level, HideIds(available, Allowed(menus, level), ids), esc, ruleEnd)
  }

  /** The style sheet is empty exactly when no level hides anything. */
  lemma {:induction false} CssTextEmpty(levelKeys: seq<string>, menus: map<string, set<string>>, available: seq<string>,
                                        ids: map<string, string>, esc: string -> string, ruleEnd: string)
    requires ruleEnd != ""
    ensures (CssText(levelKeys, menus, available, ids, esc, ruleEnd) == "")
            <==> (forall k :: k in levelKeys ==> HideIds(available, Allowed(menus, k), ids) == [])
  {
    if levelKeys != [] {
      var init := levelKeys[..|levelKeys| - 1];
      CssTextEmpty(init, menus, available, ids, esc, ruleEnd);
      assert forall k :: k in levelKeys <==> k in init || k == levelKeys[|levelKeys| - 1];
    }
  }

  /** The printed block: nothing when the style sheet is empty, otherwise the sheet inside a `<style>` element. */
  function StyleBlock(css: string): (r: string)
    ensures !Truthy(css) ==> r == ""
    ensures Truthy(css) ==> StartsWith(r, STYLE_OPEN) && |r| == |STYLE_OPEN| + |css| + |STYLE_CLOSE|
  {
    if Truthy(css) then STYLE_OPEN + css + STYLE_CLOSE else ""
  }

  /** The inner loop that collects `$hide_ids` for one level. */
  method CollectHideIds(available: seq<string>, allowed: set<string>, ids: map<string, string>)
    returns (hideIds: seq<string>)
    ensures hideIds == HideIds(available, allowed, ids)
  {
    hideIds := [];
    for j := 0 to |available|
      invariant hideIds == HideIds(available[..j], allowed, ids)
    {
      assert available[..j + 1][..j] == available[..j];
      var slug := available[j];
      if slug == DASHBOARD {
        continue;
      }
      if slug == SETTINGS_PAGE {
        continue;
      }
      if slug !in allowed {
        if slug in ids {
          hideIds := hideIds + [ids[slug]];
        }
      }
    }
    assert available[..|available|] == available;
  }

  /** The loop that turns a level's hidden ids into selectors. */
  method CollectSelectors(level: string, hideIds: seq<string>, esc: string -> string) returns (parts: seq<string>)
    ensures parts == Selectors(level, hideIds, esc)
  {
    parts := [];
    for k := 0 to |hideIds|
      invariant parts == Selectors(level, hideIds[..k], esc)
    {
      assert hideIds[..k + 1][..k] == hideIds[..k];
      parts := parts + [LEVEL_CLASS + esc(level) + " #" + esc(hideIds[k])];
    }
    assert hideIds[..|hideIds|] == hideIds;
  }

  /** The generator's outer loop: append each level's rule in turn. */
  method BuildCss(levelKeys: seq<string>, menus: map<string, set<string>>, available: seq<string>,
                  ids: map<string, string>, esc: string -> string)
    returns (css: string)
    ensures css == CssText(levelKeys, menus, available, ids, esc, RULE_END_AS_WRITTEN)
  {
    css := "";
    for n := 0 to |levelKeys|
      invariant css == CssText(levelKeys[..n], menus, available, ids, esc, RULE_END_AS_WRITTEN)
    {
      assert levelKeys[..n + 1][..n] == levelKeys[..n];
      var level := levelKeys[n];
      var allowed := if level in menus then menus[level] else {};
      var hideIds := CollectHideIds(available, allowed, ids);
      if hideIds != [] {
        var parts := CollectSelectors(level, hideIds, esc);
        if parts != [] {
          css := css + (Join(parts) + RULE_END_AS_WRITTEN);
        }
      }
    }
    assert levelKeys[..|levelKeys|] == levelKeys;
  }

  /**
    `output_visibility_css`: nothing for a superadmin; otherwise the style
    sheet for the merged levels and the listed menu items, wrapped in a
    `<style>` element when it is not empty.
   */
  method OutputVisibilityCss(isSuperadmin: bool, stored: OrderedMap<Level>, editable: EditableRoles,
                             translate: string -> string, menus: map<string, set<string>>,
                             menu: seq<MenuItem>, esc: string -> string)
    returns (out: string)
    requires stored.Valid() && editable.Valid()
    ensures isSuperadmin ==> out == ""
    ensures !isSuperadmin ==>
              out == StyleBlock(CssText(Merged(stored, editable, translate).keys, menus,
                                        ListedSlugs(menu), TargetIds(menu), esc, RULE_END_AS_WRITTEN))
  {
    if isSuperadmin {
      return "";
    }
    var levels := MergeBuiltinRoles(stored, editable, translate);
    var available, slugToId := CollectTargets(menu);
    var css := BuildCss(levels.keys, menus, available, slugToId, esc);
    out := StyleBlock(css);
  }

  /**
    Nothing is printed exactly when no merged level hides any listed menu
    item; otherwise the rules are printed inside one `<style>` element.
    This holds for the rule end as written and for the corrected one alike.
   */
  lemma NoStyleWithoutRules(levelKeys: seq<string>, menus: map<string, set<string>>, menu: seq<MenuItem>,
                            esc: string -> string, ruleEnd: string)
    requires |ruleEnd| > 1
    ensures var css := CssText(levelKeys, menus, ListedSlugs(menu), TargetIds(menu), esc, ruleEnd);
            && (StyleBlock(css) == "" <==> forall k :: k in levelKeys ==> HiddenSlugs(ListedSlugs(menu), Allowed(menus, k)) == [])
            && (StyleBlock(css) != "" ==> StyleBlock(css) == STYLE_OPEN + css + STYLE_CLOSE)
  {
    var available := ListedSlugs(menu);
    var ids := TargetIds(menu);
    var css := CssText(levelKeys, menus, available, ids, esc, ruleEnd);
    CssTextEmpty(levelKeys, menus, available, ids, esc, ruleEnd);
    forall k | k in levelKeys
      ensures HideIds(available, Allowed(menus, k), ids) == [] <==> HiddenSlugs(available, Allowed(menus, k)) == []
    {
      HideIdsOfHiddenSlugs(available, Allowed(menus, k), ids);
    }
    if css != "" {
      assert |css| >= |ruleEnd| > 1;
    }
  }

  /** Adding a level appends its rule. */
  lemma CssTextSnoc(levelKeys: seq<string>, level: string, menus: map<string, set<string>>,
                    available: seq<string>, ids: map<string, string>, esc: string -> string, ruleEnd: string)
    requires ruleEnd != ""
    ensures CssText(levelKeys + [level], menus, available, ids, esc, ruleEnd)
            == CssText(levelKeys, menus, available, ids, esc, ruleEnd)
               + RuleFor(level, HideIds(available, Allowed(menus, level), ids), esc, ruleEnd)
  {
    assert (levelKeys + [level])[..|levelKeys|] == levelKeys;
  }

  /** At position `i` of `css`, `tail` ends what comes before and `first` opens what follows. */
  predicate SeparatedAt(css: string, i: int, tail: string, first: string)
  {
    |tail| <= i <= |css| && css[i - |tail|..i] == tail && StartsWith(css[i..], first)
  }

  /** Where `prev` ending in `block + tail` meets `next` starting with `first`. */
  lemma JoinedAt(prev: string, next: string, block: string, tail: string, first: string)
    requires EndsWith(prev, block + tail) && StartsWith(next, first)
    ensures SeparatedAt(prev + next, |prev|, tail, first)
  {
    assert (prev + next)[|prev|..] == next;
    assert (prev + next)[|prev| - |tail|..|prev|] == prev[|prev| - |block + tail|..][|block|..];
  }

  /** A level hides some id as soon as one listed item with an id is hidden from it. */
  lemma {:induction false} HideIdsNonEmpty(available: seq<string>, allowed: set<string>, ids: map<string, string>, slug: string)
    requires slug in available && slug in ids && Hidden(slug, allowed)
    ensures HideIds(available, allowed, ids) != []
  {
    var last := available[|available| - 1];
    if slug != last {
      var init := available[..|available| - 1];
      assert slug in init by {
        var i :| 0 <= i < |available| && available[i] == slug;
        assert i < |available| - 1;
        assert init[i] == slug;
      }
      HideIdsNonEmpty(init, allowed, ids, slug);
    }
  }

  /**
    Where one level's rule meets the next, for a rule end made of a
    declaration block and a tail: when an earlier level `k` hides the item
    `earlier` and `level` hides the item `slug`, the sheet so far closes with
    the tail, and the new rule opens with its first selector right after it.
   */
  lemma RuleBoundary(levelKeys: seq<string>, level: string, menus: map<string, set<string>>,
                     available: seq<string>, ids: map<string, string>, esc: string -> string,
                     block: string, tail: string, k: string, earlier: string, slug: string)
    requires block + tail != ""
    requires k in levelKeys && earlier in available && earlier in ids && Hidden(earlier, Allowed(menus, k))
    requires slug in available && slug in ids && Hidden(slug, Allowed(menus, level))
    ensures HideIds(available, Allowed(menus, level), ids) != []
    ensures SeparatedAt(CssText(levelKeys + [level], menus, available, ids, esc, block + tail),
                        |CssText(levelKeys, menus, available, ids, esc, block + tail)|, tail,
                        FirstSelector(level, HideIds(available, Allowed(menus, level), ids), esc))
  {
    var ruleEnd := block + tail;
    HideIdsNonEmpty(available, Allowed(menus, k), ids, earlier);
    HideIdsNonEmpty(available, Allowed(menus, level), ids, slug);
    CssTextEmpty(levelKeys, menus, available, ids, esc, ruleEnd);
    var hidden := HideIds(available, Allowed(menus, level), ids);
    CssTextSnoc(levelKeys, level, menus, available, ids, esc, ruleEnd);
    RuleStartsWithFirstSelector(level, hidden, esc, ruleEnd);
    JoinedAt(CssText(levelKeys, menus, available, ids, esc, ruleEnd), RuleFor(level, hidden, esc, ruleEnd),
             block, tail, FirstSelector(level, hidden, esc));
  }

  /**
    With the rule end as written, each rule after the first follows the
    previous one's backslash and letter n. CSS reads `\n` as an escaped
    letter `n`, so the next rule's first selector becomes
    `n.workflow-level-<level> #<id>`, which matches no element: the first
    menu item of that rule stays visible. Two levels that each hide a listed
    item with an id are enough.
   */
  lemma AsWrittenRulesRunTogether(levelKeys: seq<string>, level: string, menus: map<string, set<string>>,
                                  available: seq<string>, ids: map<string, string>, esc: string -> string,
                                  k: string, earlier: string, slug: string)
    requires k in levelKeys && earlier in available && earlier in ids && Hidden(earlier, Allowed(menus, k))
    requires slug in available && slug in ids && Hidden(slug, Allowed(menus, level))
    ensures HideIds(available, Allowed(menus, level), ids) != []
    ensures SeparatedAt(CssText(levelKeys + [level], menus, available, ids, esc, RULE_END_AS_WRITTEN),
                        |CssText(levelKeys, menus, available, ids, esc, RULE_END_AS_WRITTEN)|, "\\n",
                        FirstSelector(level, HideIds(available, Allowed(menus, level), ids), esc))
  {
    RuleBoundary(levelKeys, level, menus, available, ids, esc, HIDE_BLOCK, "\\n", k, earlier, slug);
  }

  /** With the corrected rule end, a line feed separates every rule from the next. */
  lemma CorrectedRulesAreSeparated(levelKeys: seq<string>, level: string, menus: map<string, set<string>>,
                                   available: seq<string>, ids: map<string, string>, esc: string -> string,
                                   k: string, earlier: string, slug: string)
    requires k in levelKeys && earlier in available && earlier in ids && Hidden(earlier, Allowed(menus, k))
    requires slug in available && slug in ids && Hidden(slug, Allowed(menus, level))
    ensures HideIds(available, Allowed(menus, level), ids) != []
    ensures SeparatedAt(CssText(levelKeys + [level], menus, available, ids, esc, RULE_END),
                        |CssText(levelKeys, menus, available, ids, esc, RULE_END)|, "\n",
                        FirstSelector(level, HideIds(available, Allowed(menus, level), ids), esc))
  {
    RuleBoundary(levelKeys, level, menus, available, ids, esc, HIDE_BLOCK, "\n", k, earlier, slug);
  }
}
