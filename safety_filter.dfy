/** The safety filter: decides whether a process name must never be frozen.
    A name is critical when it contains, case-sensitively, one of the built-in
    blacklist tokens or one of the user's non-empty whitelist (VIP) entries. */
module SafetyFilter {

  /** The built-in tokens: system shell and UI processes, the tool itself and
      the terminals and build tools it is usually run from. */
  const Blacklist: seq<string> :=
    ["Finder", "Dock", "Electron", "WindowServer", "loginwindow",
     "kernel_task", "MacNap", "Terminal", "iTerm2", "Code", "clang", "make"]

  /** `needle` occurs in `hay` starting at index `i`. */
  ghost predicate OccursAt(hay: string, needle: string, i: int) {
    0 <= i && i + |needle| <= |hay| && hay[i..i + |needle|] == needle
  }

  /** Reference definition: `needle` is a contiguous piece of `hay`. */
  ghost predicate IsSubstring(needle: string, hay: string) {
    exists i :: OccursAt(hay, needle, i)
  }

  predicate StartsWith(hay: string, prefix: string) {
    |prefix| <= |hay| && hay[..|prefix|] == prefix
  }

  /** The library search `strstr(hay, needle) != NULL`: try each start
      position of `hay` in turn. An empty needle is found at once. */
  predicate Contains(hay: string, needle: string): (r: bool)
    ensures needle == [] ==> r
    ensures r ==> |needle| <= |hay|
    decreases |hay|
  {
    StartsWith(hay, needle) || (|hay| > 0 && Contains(hay[1..], needle))
  }

  /** The position-by-position search finds exactly the substrings. */
  lemma {:induction false} ContainsIsSubstring(hay: string, needle: string)
    ensures Contains(hay, needle) <==> IsSubstring(needle, hay)
    decreases |hay|
  {
    if Contains(hay, needle) {
      if StartsWith(hay, needle) {
        assert OccursAt(hay, needle, 0);
      } else {
        ContainsIsSubstring(hay[1..], needle);
        var i :| OccursAt(hay[1..], needle, i);
        assert hay[1..][i..i + |needle|] == hay[i + 1..i + 1 + |needle|];
        assert OccursAt(hay, needle, i + 1);
      }
    }
    if IsSubstring(needle, hay) {
      var i :| OccursAt(hay, needle, i);
      if i == 0 {
        assert StartsWith(hay, needle);
      } else {
        assert hay[1..][i - 1..i - 1 + |needle|] == hay[i..i + |needle|];
        assert OccursAt(hay[1..], needle, i - 1);
        ContainsIsSubstring(hay[1..], needle);
      }
    }
  }

  /** The blacklist loop: some token of `tokens` is found in `name`. */
  predicate AnyTokenIn(name: string, tokens: seq<string>): (r: bool)
    ensures r <==> exists k :: 0 <= k < |tokens| && Contains(name, tokens[k])
  {
    |tokens| > 0 &&
    (Contains(name, tokens[0]) ||
     (assert forall k :: 0 <= k < |tokens| - 1 ==> tokens[1..][k] == tokens[k + 1];
      AnyTokenIn(name, tokens[1..])))
  }

  /** The whitelist loop: some entry of `entries` is found in `name`;
      an empty entry is skipped before the search. */
  predicate AnyVipIn(name: string, entries: seq<string>): (r: bool)
    ensures r <==> exists k :: 0 <= k < |entries| && entries[k] != [] && Contains(name, entries[k])
  {
    |entries| > 0 &&
    ((|entries[0]| >= 1 && Contains(name, entries[0])) ||
     (assert forall k :: 0 <= k < |entries| - 1 ==> entries[1..][k] == entries[k + 1];
      AnyVipIn(name, entries[1..])))
  }

  /** The safety filter itself. */
  predicate IsCritical(name: string, whitelist: seq<string>): (r: bool)
    ensures forall t :: t in Blacklist && Contains(name, t) ==> r
    ensures forall w :: w in whitelist && w != [] && Contains(name, w) ==> r
    ensures r ==> (exists t :: t in Blacklist && Contains(name, t)) ||
                  (exists w :: w in whitelist && w != [] && Contains(name, w))
  {
    assert forall k :: 0 <= k < |Blacklist| ==> Blacklist[k] in Blacklist;
    assert forall k :: 0 <= k < |whitelist| ==> whitelist[k] in whitelist;
    AnyTokenIn(name, Blacklist) || AnyVipIn(name, whitelist)
  }

  lemma {:induction false} AnyTokenInIff(name: string, tokens: seq<string>)
    ensures AnyTokenIn(name, tokens) <==> exists t :: t in tokens && IsSubstring(t, name)
    decreases |tokens|
  {
    if |tokens| > 0 {
      ContainsIsSubstring(name, tokens[0]);
      AnyTokenInIff(name, tokens[1..]);
      assert forall t :: t in tokens <==> t == tokens[0] || t in tokens[1..];
    }
  }

  lemma {:induction false} AnyVipInIff(name: string, entries: seq<string>)
    ensures AnyVipIn(name, entries) <==> exists w :: w in entries && w != "" && IsSubstring(w, name)
    decreases |entries|
  {
    if |entries| > 0 {
      ContainsIsSubstring(name, entries[0]);
      AnyVipInIff(name, entries[1..]);
      assert forall w :: w in entries <==> w == entries[0] || w in entries[1..];
    }
  }

  /** A name is critical exactly when a blacklist token or a non-empty
      whitelist entry is a (case-sensitive) substring of it. */
  lemma IsCriticalIff(name: string, whitelist: seq<string>)
    ensures IsCritical(name, whitelist) <==>
              (exists t :: t in Blacklist && IsSubstring(t, name)) ||
              (exists w :: w in whitelist && w != "" && IsSubstring(w, name))
  {
    AnyTokenInIff(name, Blacklist);
    AnyVipInIff(name, whitelist);
  }

  /** Why empty whitelist entries are skipped: the library search finds the
      empty string in every name, so an unskipped empty entry would make every
      process critical. Skipped, it changes nothing, wherever it appears. */
  lemma {:induction false} EmptyEntryIsInert(name: string, front: seq<string>, back: seq<string>)
    ensures Contains(name, "")
    ensures IsCritical(name, front + [""] + back) == IsCritical(name, front + back)
  {
    IsCriticalIff(name, front + [""] + back);
    IsCriticalIff(name, front + back);
    assert forall w :: w in front + [""] + back && w != "" <==> w in front + back && w != "";
  }
}
