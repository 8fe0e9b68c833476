/**
  The few PHP language facts the plugin's logic depends on: values that may be
  absent (`isset`), the truthiness of strings (`empty`, `if ($s)`), the largest
  integer, `strpos` tests and `trim`.
 */
module Php {

  /** A value that may be missing: an unset array index or option, or `null`. */
  datatype Option<+T> = None | Some(value: T)
  {
    function GetOr(default: T): T
    {
      match this
      case Some(v) => v
      case None => default
    }
  }

  /** `PHP_INT_MAX` on the 64-bit platforms WordPress runs on. */
  const PHP_INT_MAX: int := 0x7fff_ffff_ffff_ffff

  /** A string is falsy in PHP exactly when it is "" or "0"; `empty($s)` is its negation. */
  predicate Truthy(s: string)
  {
    s != "" && s != "0"
  }

  /** `false !== strpos($s, $sub)`: `sub` occurs somewhere in `s`. */
  predicate Contains(s: string, sub: string)
  {
    exists i :: 0 <= i <= |s| - |sub| && OccursAt(s, sub, i)
  }

  predicate OccursAt(s: string, sub: string, i: int)
  {
    0 <= i <= |s| - |sub| && s[i..i + |sub|] == sub
  }

  /** `0 === strpos($s, $prefix)`. */
  predicate StartsWith(s: string, prefix: string)
  {
    |prefix| <= |s| && s[..|prefix|] == prefix
  }

  /** `$suffix` closes `$s`. */
  predicate EndsWith(s: string, suffix: string)
  {
    |suffix| <= |s| && s[|s| - |suffix|..] == suffix
  }

  lemma StartsWithConcat(s: string, t: string, prefix: string)
    requires StartsWith(s, prefix)
    ensures StartsWith(s + t, prefix)
  {
    assert (s + t)[..|prefix|] == s[..|prefix|];
  }

  /** The characters `trim` removes by default: " \t\n\r\0\x0B". */
  predicate TrimSpace(c: char)
  {
    c == ' ' || c == '\t' || c == '\n' || c == '\r' || c == '\0' || c as int == 11
  }

  function TrimEnd(s: string): (r: string)
    ensures |r| <= |s| && r == s[..|r|]
    ensures forall i :: |r| <= i < |s| ==> TrimSpace(s[i])
    ensures r == [] || !TrimSpace(r[|r| - 1])
  {
    if s != [] && TrimSpace(s[|s| - 1]) then TrimEnd(s[..|s| - 1]) else s
  }

  function TrimStart(s: string): (r: string)
    ensures |r| <= |s| && r == s[|s| - |r|..]
    ensures forall i :: 0 <= i < |s| - |r| ==> TrimSpace(s[i])
    ensures r == [] || !TrimSpace(r[0])
  {
    if s != [] && TrimSpace(s[0]) then TrimStart(s[1..]) else s
  }

  /**
    PHP's `trim`: every leading and trailing trim character removed. The result
    neither starts nor ends with one, and `TrimIsInfix` shows it is the part of
    `s` between a run of trim characters at each end.
   */
  function Trim(s: string): (r: string)
    ensures |r| <= |s|
    ensures r == [] || (!TrimSpace(r[0]) && !TrimSpace(r[|r| - 1]))
  {
    TrimStart(TrimEnd(s))
  }

  lemma TrimIsInfix(s: string) returns (lo: nat)
    ensures lo + |Trim(s)| <= |s| && Trim(s) == s[lo..lo + |Trim(s)|]
    ensures forall i :: 0 <= i < lo ==> TrimSpace(s[i])
    ensures forall i :: lo + |Trim(s)| <= i < |s| ==> TrimSpace(s[i])
  {
    var t := TrimEnd(s);
    var r := TrimStart(t);
    lo := |t| - |r|;
    assert r == s[lo..lo + |r|] by {
      assert r == t[lo..] && t == s[..|t|] && lo + |r| == |t|;
    }
    assert forall i :: 0 <= i < lo ==> TrimSpace(s[i]) by {
      forall i | 0 <= i < lo
        ensures TrimSpace(s[i])
      {
        assert s[i] == t[i];
      }
    }
  }
}
