/**
  Reading WordPress's global `$menu`: which top-level items the plugin lists,
  the label it shows for each, and the HTML id it hides each by.

  Both the settings page and the CSS generator walk `$menu` and keep an item
  only when its slug (index 2) is set and not falsy, contains no `separator`,
  and is not one of the two comments slugs.
 */
module AdminMenu {
  import opened Php
  import opened OrderedMaps

  /**
    One entry of `$menu`: index 0 is the title (HTML), 1 the capability,
    2 the slug and 5 the HTML id. An index that is not set is `None`.
   */
  datatype MenuItem = MenuItem(title: Option<string>, capability: Option<string>, slug: Option<string>, htmlId: Option<string>)

  const SEPARATOR: string := "separator"
  const COMMENTS: string := "edit-comments.php"
  const COMMENTS_LEGACY: string := "edit-comments"

  /** The item is listed: its slug is set, truthy, no separator and not the comments menu. */
  predicate Listed(item: MenuItem)
  {
    && item.slug.Some? && Truthy(item.slug.value)
    && !Contains(item.slug.value, SEPARATOR)
    && item.slug.value != COMMENTS && item.slug.value != COMMENTS_LEGACY
  }

  /** The slugs of the listed items in menu order, a slug listed twice appearing twice. */
  function ListedSlugs(menu: seq<MenuItem>): (r: seq<string>)
    ensures |r| <= |menu|
    ensures forall s :: s in r ==>
              Truthy(s) && !Contains(s, SEPARATOR) && s != COMMENTS && s != COMMENTS_LEGACY
    ensures forall s :: s in r <==> exists i :: 0 <= i < |menu| && Listed(menu[i]) && menu[i].slug.value == s
  {
    if menu == [] then []
    else
      var prev := menu[..|menu| - 1];
      var last := menu[|menu| - 1];
      var r := ListedSlugs(prev) + (if Listed(last) then [last.slug.value] else []);
      assert forall i :: 0 <= i < |prev| ==> prev[i] == menu[i];
      r
  }

  // ---------------------------------------------------------------------
  // Labels: `trim(preg_replace('/\s*[\d()]+$/', '', wp_strip_all_tags($title)))`

  /** PCRE's `\s` outside UTF mode: space, tab, line feed, vertical tab, form feed, carriage return. */
  predicate RegexSpace(c: char)
  {
    c == ' ' || c == '\t' || c == '\n' || c as int == 11 || c as int == 12 || c == '\r'
  }

  /** The class `[\d()]`: an ASCII digit or a parenthesis. */
  predicate BadgeChar(c: char)
  {
    ('0' <= c <= '9') || c == '(' || c == ')'
  }

  predicate AllBadge(t: string)
  {
    forall i :: 0 <= i < |t| ==> BadgeChar(t[i])
  }

  /** `\s*[\d()]+` matches the whole of `t`. */
  predicate CountSuffix(t: string)
  {
    t != [] && (AllBadge(t) || (RegexSpace(t[0]) && CountSuffix(t[1..])))
  }

  /**
    `/\s*[\d()]+$/` has a match that starts at `q`: `$` matches at the very
    end, or just before a line feed that ends the subject.
   */
  predicate MatchesAt(s: string, q: int)
  {
    && 0 <= q <= |s|
    && (|| CountSuffix(s[q..])
        || (s != [] && s[|s| - 1] == '\n' && q <= |s| - 1 && CountSuffix(s[q..|s| - 1])))
  }

  /** `s` without its trailing run of `[\d()]` characters. */
  function DropBadgeRun(s: string): (r: string)
    ensures |r| <= |s| && r == s[..|r|]
    ensures forall i :: |r| <= i < |s| ==> BadgeChar(s[i])
    ensures r == [] || !BadgeChar(r[|r| - 1])
  {
    if s != [] && BadgeChar(s[|s| - 1]) then DropBadgeRun(s[..|s| - 1]) else s
  }

  /** `s` without its trailing run of `\s` characters. */
  function DropSpaceRun(s: string): (r: string)
    ensures |r| <= |s| && r == s[..|r|]
    ensures forall i :: |r| <= i < |s| ==> RegexSpace(s[i])
    ensures r == [] || !RegexSpace(r[|r| - 1])
  {
    if s != [] && RegexSpace(s[|s| - 1]) then DropSpaceRun(s[..|s| - 1]) else s
  }

  /** A line feed when `s` ends with one (the part `$` lets the match stop before). */
  function FinalLineFeed(s: string): string
  {
    if s != [] && s[|s| - 1] == '\n' then "\n" else ""
  }

  /**
    `preg_replace('/\s*[\d()]+$/', '', $s)`: the count badge WordPress appends
    to a menu title ("Plugins 3", "Comments (12)") is cut off, together with
    the white space before it. `StripCountBadgeIsLeftmostMatch` shows this is
    the regular expression's leftmost match.
   */
  function StripCountBadge(s: string): (r: string)
    ensures |r| <= |s|
  {
    var t := s[..|s| - |FinalLineFeed(s)|];
    if t != [] && BadgeChar(t[|t| - 1]) then DropSpaceRun(DropBadgeRun(t)) + FinalLineFeed(s)
    else s
  }

  lemma {:induction false} CountSuffixShape(u: string, k: nat)
    requires CountSuffix(u) && k < |u|
    ensures RegexSpace(u[k]) || forall j :: k <= j < |u| ==> BadgeChar(u[j])
  {
    if !AllBadge(u) && k > 0 {
      CountSuffixShape(u[1..], k - 1);
      assert forall j :: k - 1 <= j < |u| - 1 ==> u[1..][j] == u[j + 1];
    }
  }

  lemma CountSuffixEndsWithBadge(u: string)
    requires CountSuffix(u)
    ensures BadgeChar(u[|u| - 1])
  {
    CountSuffixShape(u, |u| - 1);
  }

  lemma {:induction false} SpacesThenBadges(t: string, q: nat, m: nat)
    requires q <= m < |t|
    requires forall i :: q <= i < m ==> RegexSpace(t[i])
    requires forall i :: m <= i < |t| ==> BadgeChar(t[i])
    ensures CountSuffix(t[q..])
    decreases m - q
  {
    if q < m {
      SpacesThenBadges(t, q + 1, m);
      assert t[q..][1..] == t[q + 1..];
    } else {
      assert AllBadge(t[q..]);
    }
  }

  /** A match of the pattern lies within the title minus its final line feed. */
  lemma MatchIsBeforeLineFeed(s: string, p: nat)
    requires MatchesAt(s, p)
    ensures var t := s[..|s| - |FinalLineFeed(s)|]; p < |t| && CountSuffix(t[p..])
  {
    var t := s[..|s| - |FinalLineFeed(s)|];
    if FinalLineFeed(s) == [] {
      assert s[p..] == t[p..];
    } else {
      if CountSuffix(s[p..]) {
        CountSuffixEndsWithBadge(s[p..]);
        assert false;
      }
      assert s[p..|s| - 1] == t[p..];
    }
  }

  /** Without a badge character just before the end (or the final line feed), the pattern matches nowhere. */
  lemma NoBadgeNoMatch(s: string, p: nat)
    requires var t := s[..|s| - |FinalLineFeed(s)|]; !(t != [] && BadgeChar(t[|t| - 1]))
    ensures !MatchesAt(s, p)
  {
    if MatchesAt(s, p) {
      MatchIsBeforeLineFeed(s, p);
      var t := s[..|s| - |FinalLineFeed(s)|];
      CountSuffixEndsWithBadge(t[p..]);
    }
  }

  /** Where `StripCountBadge` cuts, the pattern matches. */
  lemma CutMatches(s: string)
    requires var t := s[..|s| - |FinalLineFeed(s)|]; t != [] && BadgeChar(t[|t| - 1])
    ensures var t := s[..|s| - |FinalLineFeed(s)|];
            MatchesAt(s, |DropSpaceRun(DropBadgeRun(t))|)
  {
    var t := s[..|s| - |FinalLineFeed(s)|];
    var b := DropBadgeRun(t);
    var q := |DropSpaceRun(b)|;
    SpacesThenBadges(t, q, |b|);
    if FinalLineFeed(s) == [] {
      assert s[q..] == t[q..];
    } else {
      assert s[q..|s| - 1] == t[q..];
    }
  }

  /** A match that starts before the cut would have to be all badge characters from the cut on. */
  lemma EarlierMatchShape(t: string, p: nat, q: nat)
    requires p < q <= |t| && CountSuffix(t[p..]) && !RegexSpace(t[q - 1])
    ensures forall j :: q - 1 <= j < |t| ==> BadgeChar(t[j])
  {
    CountSuffixShape(t[p..], q - 1 - p);
    assert forall j :: q - 1 <= j < |t| ==> t[j] == t[p..][j - p];
  }

  /** The pattern matches nowhere before the place where `StripCountBadge` cuts. */
  lemma NoMatchBeforeCut(s: string, p: nat)
    requires var t := s[..|s| - |FinalLineFeed(s)|]; t != [] && BadgeChar(t[|t| - 1])
    requires var t := s[..|s| - |FinalLineFeed(s)|]; p < |DropSpaceRun(DropBadgeRun(t))|
    ensures !MatchesAt(s, p)
  {
    var t := s[..|s| - |FinalLineFeed(s)|];
    var b := DropBadgeRun(t);
    var r := DropSpaceRun(b);
    var q := |r|;
    if MatchesAt(s, p) {
      MatchIsBeforeLineFeed(s, p);
      assert t[q - 1] == r[q - 1];
      EarlierMatchShape(t, p, q);
    }
  }

  /**
    `StripCountBadge` removes exactly the leftmost match of `/\s*[\d()]+$/`:
    when the pattern matches nowhere the title is unchanged; otherwise the
    result is the title up to the first position where it matches, followed
    by the final line feed when the match stopped before one.
   */
  lemma StripCountBadgeIsLeftmostMatch(s: string) returns (q: nat)
    ensures q <= |s|
    ensures || ((forall p :: 0 <= p <= |s| ==> !MatchesAt(s, p)) && StripCountBadge(s) == s)
            || (&& MatchesAt(s, q) && (forall p :: 0 <= p < q ==> !MatchesAt(s, p))
                && StripCountBadge(s) == s[..q] + FinalLineFeed(s))
  {
    var t := s[..|s| - |FinalLineFeed(s)|];
    if t != [] && BadgeChar(t[|t| - 1]) {
      var r := DropSpaceRun(DropBadgeRun(t));
      q := |r|;
      CutMatches(s);
      forall p | 0 <= p < q
        ensures !MatchesAt(s, p)
      {
        NoMatchBeforeCut(s, p);
      }
      assert r == s[..q];
    } else {
      q := 0;
      forall p | 0 <= p <= |s|
        ensures !MatchesAt(s, p)
      {
        NoBadgeNoMatch(s, p);
      }
    }
  }

  /**
    The label the settings page shows for a listed item: the tag-stripped
    title with its count badge cut off and then trimmed, or the slug when the
    item has no title.
   */
  function MenuLabel(item: MenuItem, stripTags: string -> string): (r: string)
    requires item.slug.Some?
    ensures item.title.None? ==> r == item.slug.value
    ensures item.title.Some? ==> r == [] || (!TrimSpace(r[0]) && !TrimSpace(r[|r| - 1]))
    ensures item.title.Some? ==> |r| <= |stripTags(item.title.value)|
  {
    if item.title.Some? then Trim(StripCountBadge(stripTags(item.title.value))) else item.slug.value
  }

  /**
    A titled item's label is the trimmed tag-stripped title, cut at the
    leftmost match of `/\s*[\d()]+$/` (a final line feed kept), or trimmed
    whole when the pattern matches nowhere.
   */
  lemma MenuLabelCutsLeftmostBadge(item: MenuItem, stripTags: string -> string) returns (q: nat)
    requires item.slug.Some? && item.title.Some?
    ensures var s := stripTags(item.title.value);
            && q <= |s|
            && (|| ((forall p :: 0 <= p <= |s| ==> !MatchesAt(s, p)) && MenuLabel(item, stripTags) == Trim(s))
                || (&& MatchesAt(s, q) && (forall p :: 0 <= p < q ==> !MatchesAt(s, p))
                    && MenuLabel(item, stripTags) == Trim(s[..q] + FinalLineFeed(s))))
  {
    q := StripCountBadgeIsLeftmostMatch(stripTags(item.title.value));
  }

  // ---------------------------------------------------------------------
  // HTML ids: `$item[5]`, or `'menu-' . preg_replace('/[^a-zA-Z0-9_-]/', '-', $slug)`

  predicate IdChar(c: char)
  {
    ('a' <= c <= 'z') || ('A' <= c <= 'Z') || ('0' <= c <= '9') || c == '_' || c == '-'
  }

  /** Every character outside `[a-zA-Z0-9_-]` replaced by `-`. */
  function SanitizeForId(s: string): (r: string)
    ensures |r| == |s|
    ensures forall i :: 0 <= i < |s| ==> r[i] == if IdChar(s[i]) then s[i] else '-'
  {
    if s == [] then []
    else SanitizeForId(s[..|s| - 1]) + [if IdChar(s[|s| - 1]) then s[|s| - 1] else '-']
  }

  const ID_PREFIX: string := "menu-"

  /**
    The id the CSS hides a listed item by: its own id when that is set and
    truthy; otherwise `menu-` and the slug with every character outside
    `[a-zA-Z0-9_-]` replaced by `-`, so five characters longer than the slug,
    made of allowed characters only, and keeping every allowed character of
    the slug in place.
   */
  function MenuId(item: MenuItem): (r: string)
    requires item.slug.Some?
    ensures item.htmlId.Some? && Truthy(item.htmlId.value) ==> r == item.htmlId.value
    ensures !(item.htmlId.Some? && Truthy(item.htmlId.value)) ==>
              && StartsWith(r, ID_PREFIX) && |r| == |item.slug.value| + 5
              && (forall i :: 0 <= i < |r| ==> IdChar(r[i]))
              && (forall i :: 0 <= i < |item.slug.value| && IdChar(item.slug.value[i]) ==> r[i + 5] == item.slug.value[i])
  {
    if item.htmlId.Some? && Truthy(item.htmlId.value) then item.htmlId.value
    else
      var r := ID_PREFIX + SanitizeForId(item.slug.value);
      assert forall i :: 0 <= i < 5 ==> IdChar(r[i]);
      r
  }

  // ---------------------------------------------------------------------
  // The two enumeration loops

  /** `$slug_to_id` after the CSS generator's loop: each listed slug mapped to its id. */
  function TargetIds(menu: seq<MenuItem>): (r: map<string, string>)
    ensures forall s :: s in r <==> s in ListedSlugs(menu)
  {
    if menu == [] then map[]
    else
      var last := menu[|menu| - 1];
      var prev := TargetIds(menu[..|menu| - 1]);
      if Listed(last) then prev[last.slug.value := MenuId(last)] else prev
  }

  /** The item `i` is listed and no listed item after it has its slug. */
  ghost predicate LastListedWith(menu: seq<MenuItem>, i: int, s: string)
  {
    && 0 <= i < |menu| && Listed(menu[i]) && menu[i].slug.value == s
    && forall j :: i < j < |menu| && Listed(menu[j]) ==> menu[j].slug.value != s
  }

  /** When a slug is listed twice, the later item's id wins. */
  lemma {:induction false} TargetIdsTakeLast(menu: seq<MenuItem>, i: nat, s: string)
    requires LastListedWith(menu, i, s)
    ensures s in TargetIds(menu) && TargetIds(menu)[s] == MenuId(menu[i])
  {
    var prev := menu[..|menu| - 1];
    if i < |menu| - 1 {
      assert LastListedWith(prev, i, s) by {
        assert forall j :: 0 <= j < |prev| ==> prev[j] == menu[j];
      }
      TargetIdsTakeLast(prev, i, s);
    }
  }

  /**
    The CSS generator's walk over `$menu`: the listed slugs in order (repeats
    included) and the id each one is hidden by.
   */
  method CollectTargets(menu: seq<MenuItem>) returns (available: seq<string>, slugToId: map<string, string>)
    ensures available == ListedSlugs(menu)
    ensures slugToId == TargetIds(menu)
  {
    available := [];
    slugToId := map[];
    for n := 0 to |menu|
      invariant available == ListedSlugs(menu[..n])
      invariant slugToId == TargetIds(menu[..n])
    {
      assert menu[..n + 1][..n] == menu[..n];
      var item := menu[n];
      if item.slug.Some? && Truthy(item.slug.value) {
        var slug := item.slug.value;
        if Contains(slug, SEPARATOR) {
          continue;
        }
        if slug == COMMENTS || slug == COMMENTS_LEGACY {
          continue;
        }
        available := available + [slug];
        var menuId := if item.htmlId.Some? && Truthy(item.htmlId.value) then item.htmlId.value
                      else ID_PREFIX + SanitizeForId(slug);
        slugToId := slugToId[slug := menuId];
      }
    }
    assert menu[..|menu|] == menu;
  }

  /** `$available_menus` after the settings page's loop: each listed slug with its label. */
  function Available(menu: seq<MenuItem>, stripTags: string -> string): (r: OrderedMap<string>)
    ensures r.Valid()
    ensures forall s :: s in r.entries <==> s in ListedSlugs(menu)
  {
    if menu == [] then Empty()
    else
      var last := menu[|menu| - 1];
      var prev := Available(menu[..|menu| - 1], stripTags);
      if Listed(last) then prev.Put(last.slug.value, MenuLabel(last, stripTags)) else prev
  }

  /** When a slug is listed twice, the later item's label wins. */
  lemma {:induction false} AvailableTakesLast(menu: seq<MenuItem>, stripTags: string -> string, i: nat, s: string)
    requires LastListedWith(menu, i, s)
    ensures s in Available(menu, stripTags).entries && Available(menu, stripTags).entries[s] == MenuLabel(menu[i], stripTags)
  {
    var prev := menu[..|menu| - 1];
    if i < |menu| - 1 {
      assert LastListedWith(prev, i, s) by {
        assert forall j :: 0 <= j < |prev| ==> prev[j] == menu[j];
      }
      AvailableTakesLast(prev, stripTags, i, s);
    }
  }

  /**
    The settings page's walk over `$menu`: each listed slug with its label,
    in the order the slugs first appear.
   */
  method AvailableMenus(menu: seq<MenuItem>, stripTags: string -> string) returns (menus: OrderedMap<string>)
    ensures menus == Available(menu, stripTags)
  {
    menus := Empty();
    for n := 0 to |menu|
      invariant menus == Available(menu[..n], stripTags)
    {
      assert menu[..n + 1][..n] == menu[..n];
      var item := menu[n];
      if item.slug.Some? && Truthy(item.slug.value) {
        var slug := item.slug.value;
        if Contains(slug, SEPARATOR) {
          continue;
        }
        if slug == COMMENTS || slug == COMMENTS_LEGACY {
          continue;
        }
        var title := if item.title.Some? then Trim(StripCountBadge(stripTags(item.title.value))) else slug;
        menus := menus.Put(slug, title);
      }
    }
    assert menu[..|menu|] == menu;
  }
}
