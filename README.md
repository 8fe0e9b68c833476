# Workflow Easy — a verified model of the plugin's level and visibility logic

Workflow Easy is a WordPress plugin. It arranges roles into *levels*, ranked by
an integer `order` (lower means higher priority). For each level it records
which top-level admin menu items that level may see. A user's level is the
highest-priority level among the roles they hold. An inline style sheet then
hides every other menu item. The body class `workflow-level-<slug>` makes the
rule of the user's level apply.

The state lives in three WordPress options plus the role registry:

- `workflow_easy_levels`: slug → {name, order}, an insertion-ordered PHP array;
- `workflow_easy_menus`: level slug → the set of menu slugs marked visible;
- `workflow_easy_version`;
- the roles.

This project models the plugin's logic over that state, in Dafny:

| file | module | models |
|---|---|---|
| `php.dfy` | `Php` | the few PHP facts the logic relies on: unset values, string truthiness, `PHP_INT_MAX`, `strpos` tests, `trim` |
| `ordered_map.dfy` | `OrderedMaps` | PHP arrays as a sequence of distinct keys plus a map. Re-assigning a key keeps its place; `unset` drops it from both. |
| `levels.dfy` | `Levels` | the built-in role merge, the priority resolver (`determine_current_level_slug`) and `add_admin_body_class` |
| `admin_menu.dfy` | `AdminMenu` | the walks over WordPress's `$menu`: which items are listed, their labels, their HTML ids |
| `css.dfy` | `VisibilityCss` | `output_visibility_css`: the hide set, the rules and the `<style>` block |
| `settings.dfy` | `Settings` | option seeding and role creation on activation; the four `handle_form_submission` steps |
| `caps.dfy` | `Capabilities` | `update_role_caps_for_custom_levels` |
| `upgrade.dfy` | `Upgrade` | `maybe_run_update` and the first two passes of `cleanup_stale_data` |

## How the model is organised

The plugin object has no mutable fields. Most routines read options into
locals, change the locals in loops, and write them back. Two do more inside
their loops: `update_role_caps_for_custom_levels` changes role objects in
place through `remove_cap` and `add_cap`, and the second pass of
`cleanup_stale_data` calls `remove_role` and writes the menus option each time
it drops an entry. The model gives each routine's state at the end of the
request:

- The state is a value, `Settings.Store`.
- Each loop is a `method` over values that returns the new value.
- Each method is proved equal to a recursive or closed-form function. Most
  are *prefix folds* (the `…UpTo(n)` functions: the locals after the loop has
  visited `n` elements); `CapFor` recurses on the rest of `$menu`, and
  `RequiredCaps` and `Granted` are set and map comprehensions.
- Separate lemmas state what the fold means: which keys remain, which values
  change, and how the result relates to the input.

WordPress functions are parameters of the model, not behaviour:

- the posted-value sanitisers (`wp_unslash`, `sanitize_text_field`,
  `sanitize_title`, `sanitize_key`) and the `(int)` cast are the fields of
  `Settings.Sanitizers`;
- `esc_attr`, `wp_strip_all_tags`, `translate_user_role` and
  `sanitize_html_class` are function parameters of the members that call
  them (`esc`, `stripTags`, `translate`, `sanitizeHtmlClass`);
- the editable roles and the user's roles are inputs;
- a nonce check is a boolean. A failed check ends the request, as
  `check_admin_referer` does.

## Behaviour of note

- **Priority resolution.** The running minimum starts at `PHP_INT_MAX` and the
  comparison is strict. A level whose order is `PHP_INT_MAX` is never chosen,
  and the appended built-in roles all have that order. So a user who holds only
  built-in roles gets no body class, and the visibility settings saved for a
  built-in role never take effect (`Levels.BuiltinRolesNeverWin`).
- **Adding a level.** The new order is the largest existing order plus one,
  with no floor at zero. It is 1 when there are no levels or the largest
  order is 0, as it is right after activation, which seeds the superadmin at
  order 0. Orders saved through the `(int)` cast can make it any integer.
- **Deleting a level.**
  - There is no nonce check.
  - There is no check that the slug belongs to the plugin.
  - For any truthy slug other than the superadmin, the role is removed and
    *both* options are rewritten, even when the slug was not a level.
- **Saving visibility.** The entry reset to empty is keyed by
  `sanitize_key($level_slug)`, but the checked slugs are written under the raw
  `$level_slug`. When the two differ and the form posts only that level, the
  settings hold an empty entry and a separate entry with the selection (`Settings.UnsanitisedKeyKeepsSelection`).
- **Hide rules for the superadmin.** The CSS generator also runs for the
  superadmin level. Superadmins are spared only because both hooks return
  early for them.
- **Rule terminator.** Each CSS rule ends with a backslash and `n`, not a
  line feed, because line 875 uses a single-quoted string. `VisibilityCss.BuildCss`
  and `VisibilityCss.OutputVisibilityCss` print the sheet that way; the effect
  is under "Findings".
- **Hooks.** Neither `update_role_caps_for_custom_levels` (through
  `assign_role_capabilities`) nor `filter_admin_menu` is hooked in the
  constructor, so neither runs. If the reconciliation did run, it would also
  reconcile the superadmin role, which is stored as a level. With no menus
  selected for it, that role would keep only `read`
  (`Capabilities.SuperadminReducedToRead`).

## Model

| member | source | states |
|---|---|---|
| `Php.TrimIsInfix` | workflow-easy.php:230 | `trim` yields the part of the string between a leading and a trailing run of trim characters; the result neither starts nor ends with one |
| `Levels.Merged` | workflow-easy.php:736-744 | the merged levels are the stored ones in their order, then each editable role that is not the superadmin and not stored, in registry order, at order `PHP_INT_MAX`; stored entries are unchanged |
| `Levels.MergeBuiltinRoles` | workflow-easy.php:734-745 | the merge loop builds exactly `Merged` |
| `Levels.ResolvedIsHighestPriority` | workflow-easy.php:749-756 | the resolver returns a held level of order below `PHP_INT_MAX` with the smallest order, the earliest on a tie; it returns none exactly when every held level has order `PHP_INT_MAX` or more |
| `Levels.HighestPriorityIsUnique` | workflow-easy.php:749-756 | at most one answer is the highest-priority level, so the resolver's answer is determined |
| `Levels.BuiltinRolesNeverWin` | workflow-easy.php:737-757 | after the merge the resolved level is always a stored level; there is none exactly when every stored level the user holds has order `PHP_INT_MAX` or more |
| `Levels.DetermineCurrentLevelSlug` | workflow-easy.php:728-758 | the merge and the scan return the highest-priority level of the merged levels for the user's roles |
| `Levels.AddAdminBodyClass` | workflow-easy.php:770-780 | the classes are kept as a prefix; ` workflow-level-<slug>` is appended exactly when the page is not network admin, the user is not a superadmin and a truthy level is resolved; that level is stored and highest-priority |
| `AdminMenu.ListedSlugs` | workflow-easy.php:817-828 | a listed slug is never empty or `"0"`, never contains `separator`, and is neither comments slug; a slug is listed exactly when some item passing those tests has it |
| `AdminMenu.StripCountBadgeIsLeftmostMatch` | workflow-easy.php:228 | the badge strip cuts the title at the leftmost position where `\s*[\d()]+$` matches, keeping a final line feed; it leaves the title unchanged when the pattern matches nowhere |
| `AdminMenu.MenuLabel` | workflow-easy.php:225-233 | the label is the slug when the item has no title; otherwise the label is trimmed and no longer than the tag-stripped title |
| `AdminMenu.MenuLabelCutsLeftmostBadge` | workflow-easy.php:225-233 | a titled item's label is the trim of the tag-stripped title cut at the leftmost match of `\s*[\d()]+$` (a final line feed kept), or the trim of the whole tag-stripped title when nothing matches |
| `AdminMenu.SanitizeForId` | workflow-easy.php:837 | same length as the slug, each character outside `[a-zA-Z0-9_-]` replaced by `-` and every other character kept |
| `AdminMenu.MenuId` | workflow-easy.php:832-838 | the item's own id when set and truthy; otherwise it starts with `menu-`, is five characters longer than the slug, holds only allowed characters, and keeps the slug's allowed characters in place |
| `AdminMenu.TargetIdsTakeLast` | workflow-easy.php:839 | a slug listed more than once is hidden by the id of its last listed item |
| `AdminMenu.CollectTargets` | workflow-easy.php:815-842 | the walk yields the listed slugs in menu order and the slug-to-id map |
| `AdminMenu.AvailableTakesLast` | workflow-easy.php:205-235 | a slug listed more than once is shown with the label of its last listed item |
| `AdminMenu.AvailableMenus` | workflow-easy.php:203-237 | the settings page's walk builds exactly `Available`, whose keys are the listed slugs |
| `VisibilityCss.HiddenSlugs` | workflow-easy.php:852-866 | an available slug is hidden exactly when it is not `index.php`, not `workflow-easy` and not allowed for the level |
| `VisibilityCss.HideIdsOfHiddenSlugs` | workflow-easy.php:861-865 | when every available slug has an id, the hidden ids are the ids of the hidden slugs, in order |
| `VisibilityCss.Selectors` | workflow-easy.php:870-873 | one selector per hidden id: `.workflow-level-`, the escaped level, ` #` and the escaped id |
| `VisibilityCss.RuleFor` | workflow-easy.php:868-876 | a level's rule is empty exactly when it hides no id, and otherwise ends with the declaration block and its terminator |
| `VisibilityCss.CssTextEmpty` | workflow-easy.php:846-878 | the style sheet is empty exactly when no level hides any id |
| `VisibilityCss.CollectHideIds` | workflow-easy.php:851-867 | the hide loop builds exactly `HideIds` |
| `VisibilityCss.CollectSelectors` | workflow-easy.php:870-873 | the selector loop builds exactly `Selectors` |
| `VisibilityCss.BuildCss` | workflow-easy.php:846-878 | the rule loop builds `CssText` over the merged levels, each rule ending in the declaration block followed by a backslash and `n`, as the single-quoted string at line 875 gives |
| `VisibilityCss.StyleBlock` | workflow-easy.php:879-881 | nothing is printed for a falsy style sheet; otherwise the sheet is wrapped in the `<style>` element |
| `VisibilityCss.OutputVisibilityCss` | workflow-easy.php:792-882 | nothing for a superadmin; otherwise the `<style>` block of the rules, as written with the backslash-`n` terminator, for the merged levels and the listed items |
| `VisibilityCss.NoStyleWithoutRules` | workflow-easy.php:868-881 | for the terminator as written and the corrected one alike, nothing is printed exactly when no merged level hides a listed item; otherwise exactly one `<style>` element around the rules |
| `VisibilityCss.HideIdsNonEmpty` | workflow-easy.php:852-866 | a level hides some id as soon as one listed item with an id is hidden from it |
| `VisibilityCss.AsWrittenRulesRunTogether` | workflow-easy.php:875 | with the terminator as written, whenever an earlier level and the next level each hide a listed item, a backslash and `n` stand between the two rules, right before the next level's first selector |
| `VisibilityCss.CorrectedRulesAreSeparated` | workflow-easy.php:875 | with a line feed as terminator, under the same conditions a line feed stands between the two rules, right before the next level's first selector |
| `Settings.AddRole` | workflow-easy.php:33 | `add_role` registers the role at the end when it is missing, and leaves the registry unchanged when the role exists |
| `Settings.SeedLevels` | workflow-easy.php:40-46 | the seeded levels hold only the superadmin level, named "Workflow Superadmin", at order 0 |
| `Settings.Activate` | workflow-easy.php:28-56 | the superadmin role exists afterwards, with the administrator's capabilities (or only `read`) when it is new; every other role is kept unchanged and no other role is added; each option is seeded only when absent |
| `Settings.ActivateIdempotent` | workflow-easy.php:28-56 | activating twice gives the same state as activating once |
| `Settings.MaxOrder` | workflow-easy.php:400-401 | the result bounds every order and is attained; it is 0 when there are no levels |
| `Settings.AddLevel` | workflow-easy.php:378-406 | a falsy name or an existing slug changes nothing; otherwise the role is added, copying the editor's capabilities, and one level is appended with order `MaxOrder` plus one, so above all others; other levels are unchanged |
| `Levels.ResolvedMerged` | workflow-easy.php:734-757 | resolving over the merged levels gives the same answer as resolving over the stored levels alone |
| `Settings.AddedLevelHasLowestPriority` | workflow-easy.php:400-402 | after a level is added, the resolver over the merged levels picks the level it picked before, or the new level only when it picked none before; the new order, one above the largest, is what makes the second half hold |
| `Settings.ReorderedEntries` | workflow-easy.php:410-416 | saving the order keeps the slugs and their places and names; a posted level gets the posted order cast to an integer; other levels are unchanged |
| `Settings.SaveOrder` | workflow-easy.php:411-416 | the order loop computes exactly `Reordered` |
| `Settings.DeleteLevel` | workflow-easy.php:420-432 | a falsy slug or the superadmin changes nothing; otherwise the role, the level and its menu settings are removed, all other entries are kept, and both options are written |
| `Settings.DeleteKeepsOrder` | workflow-easy.php:426-427 | the remaining levels keep their relative order |
| `Settings.OnlyPostedLevels` | workflow-easy.php:435-444 | the visibility settings are replaced wholesale: a level not posted has no entry afterwards |
| `Settings.VisibilityWhenKeysAreClean` | workflow-easy.php:437-443 | when `sanitize_key` leaves the posted level slugs unchanged, each posted level maps to exactly the sanitised slugs checked for it, and nothing else has an entry |
| `Settings.UnsanitisedKeyKeepsSelection` | workflow-easy.php:438-441 | for a form posting only that level, when `sanitize_key` changes its slug, the selection is saved under the raw slug and an empty entry appears under the sanitised one |
| `Settings.MarkSlugs` | workflow-easy.php:439-441 | the inner loop adds each checked slug, sanitised, to the level's entry, creating it when missing; it changes nothing when no slug is checked |
| `Settings.SaveVisibility` | workflow-easy.php:435-444 | the nested loops compute exactly `Visibility` |
| `Settings.Submitted` | workflow-easy.php:376-448 | the handler never changes the stored version |
| `Settings.DeleteNeedsNoNonce` | workflow-easy.php:420-432 | a delete request alone takes effect with no nonce at all |
| `Settings.SaveVisibilityIdempotent` | workflow-easy.php:434-447 | submitting the same visibility form twice gives the same state as submitting it once |
| `Settings.HandleFormSubmission` | workflow-easy.php:376-448 | the handler runs add, order, delete and visibility in that order; a failed nonce ends the request with the writes made so far |
| `Capabilities.CapForIsFirstMatch` | workflow-easy.php:547-556 | a capability found comes from the first `$menu` item with the slug; that item's capability is set and truthy, and the answer is it, tag-stripped and trimmed |
| `Capabilities.CapForAtFirstMatch` | workflow-easy.php:547-556 | at the first `$menu` item with the slug, the answer is that item's capability, tag-stripped and trimmed, when it is set and truthy, and none otherwise, whatever later items say |
| `Capabilities.CapForNoMatch` | workflow-easy.php:547-556 | when no `$menu` item has the slug, no capability is found |
| `Capabilities.FindCap` | workflow-easy.php:547-557 | the lookup loop computes exactly `CapFor` |
| `Capabilities.RequiredCaps` | workflow-easy.php:540-559 | `read` is required; every other required capability is the capability found for a selected slug, and each capability found is required |
| `Capabilities.CollectRequiredCaps` | workflow-easy.php:542-559 | the loop computes exactly `RequiredCaps` |
| `Capabilities.ReconcileCaps` | workflow-easy.php:565-576 | afterwards the role holds exactly the required capabilities, each granted |
| `Capabilities.CapsUpdatedUpToEntries` | workflow-easy.php:538-577 | each role that is a level ends with exactly `read` plus the capabilities of its selected menus, under its old name; other roles are unchanged; no role is added or removed |
| `Capabilities.UpdateRoleCapsForCustomLevels` | workflow-easy.php:530-578 | with no levels nothing changes; otherwise the registry is the one the reconciliation loop describes |
| `Capabilities.SuperadminReducedToRead` | workflow-easy.php:538-577 | a superadmin role with no menus selected ends with only `read` |
| `Upgrade.PrunedUpToEntries` | workflow-easy.php:632-640 | pass 1 drops exactly the visited levels that have no role, together with their menu settings; everything else is kept |
| `Upgrade.PrunedUpToDirty` | workflow-easy.php:632-640 | pass 1 is dirty exactly when it met a level without a role; a clean pass changed nothing |
| `Upgrade.SweptUpToRoles` | workflow-easy.php:661-665 | pass 2 removes exactly the visited `workflow_` roles, other than the superadmin, that are not levels; every other role is kept unchanged |
| `Upgrade.SweptUpToMenus` | workflow-easy.php:661-669 | pass 2 drops the menu settings of exactly the roles it removes; every other entry is kept unchanged |
| `Upgrade.SweptUpToWrote` | workflow-easy.php:666-669 | pass 2 writes the menus option exactly when a removed role had menu settings; a pass that met no such role changed nothing |
| `Upgrade.CleanedMenus` | workflow-easy.php:641-669 | the menu settings read back after cleanup are those the second pass left |
| `Upgrade.CleanupOnlyRemoves` | workflow-easy.php:629-674 | cleanup only removes: kept roles, levels and menu settings are unchanged, and a dropped menu entry belonged to a level without a role or to a removed role |
| `Upgrade.CleanupConsistent` | workflow-easy.php:629-674 | after cleanup every level has a role, and every `workflow_` role other than the superadmin is a level |
| `Upgrade.CleanupIdempotent` | workflow-easy.php:629-674 | cleaning a cleaned state changes nothing |
| `Upgrade.PruneLevels` | workflow-easy.php:629-640 | the first pass's loop computes exactly `PrunedUpTo` over all stored levels |
| `Upgrade.SweepRoles` | workflow-easy.php:661-672 | the second pass's loop computes exactly `SweptUpTo` over all registered roles |
| `Upgrade.CleanupStaleData` | workflow-easy.php:625-674 | the two passes, with their conditional writes, compute exactly `Cleaned` |
| `Upgrade.UpdateRunsOnce` | workflow-easy.php:604-616 | a second update finds the current version and does nothing |
| `Upgrade.UpdatedConsistent` | workflow-easy.php:604-616 | after an update from another version, levels and the plugin's roles agree |
| `Upgrade.MaybeRunUpdate` | workflow-easy.php:604-616 | nothing when the stored version is `1.9.0`; otherwise cleanup, then the version is set to `1.9.0` |

## Left out

- Intermediate writes within one request: the role changes made by
  `add_cap`, `remove_cap` and `remove_role` inside loops, and the repeated
  writes of the menus option in the second cleanup pass, are given only as
  the state once the loop has finished. They are observable only if the
  request stops in the middle of a loop.

- HTML rendering of the settings page and its inline styles. This is presentation.
- The display sort (`uasort` with `strnatcasecmp`) and the display order 999. This ordering is presentation only and depends on PHP library comparison.
- The removal half of `filter_admin_menu`, which calls `remove_menu_page`. The routine is not hooked. Its resolver is the same merge and scan as `Levels.DetermineCurrentLevelSlug`.
- The third pass of `cleanup_stale_data`, the capability purge gated by `version_compare(..., '1.7.0')`. It depends on PHP's version comparison.
- The activation hook's assignment of the superadmin role to the current user. This is user-session plumbing.
- Singleton construction and hook registration.
- WordPress persistence and role APIs. They become the `Store` value. An option that is missing or not an array reads as `None` or empty. `$menu` that is not an array reads as an empty sequence. `$wp_roles` is taken as set in `cleanup_stale_data`.
- PHP's conversion of numeric-string array keys to integers. Slugs are strings throughout.
- `Settings.AddLevel`: an order of `PHP_INT_MAX + 1` would become a float in PHP. Integers here are unbounded.
- The `(int)` cast of posted orders is the parameter `toInt`. The sanitisers and escapers are uninterpreted parameters.
- The regular expressions work on characters as if they were bytes. There is no UTF-8 mode.

## Findings

| source | as written | input that shows it | evidently intended | confidence | as-written member | corrected member |
|---|---|---|---|---|---|---|
| workflow-easy.php:875 | the rule terminator is the single-quoted `'{display:none !important;}\n'`, so each rule ends with a backslash and the letter `n` | two merged levels that each hide at least one listed menu item: the second rule is glued to `\n`, and its first selector reads as `n.workflow-level-…`, which matches nothing | a line feed between rules, so that every level's first selector applies | not executed | `VisibilityCss.AsWrittenRulesRunTogether` | `VisibilityCss.CorrectedRulesAreSeparated` |
