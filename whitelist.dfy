/** The line filter of the whitelist loader: which lines of the VIP file
    become whitelist entries, in file order, at most twenty of them. */
module Whitelist {

  const MaxWhitelistItems: nat := 20

  /** The line cut at its first carriage return or line feed. */
  function StripLineEnd(line: string): (r: string)
    ensures r <= line
    ensures forall k :: 0 <= k < |r| ==> r[k] != '\r' && r[k] != '\n'
    ensures |r| < |line| ==> line[|r|] == '\r' || line[|r|] == '\n'
  {
    if line == [] || line[0] == '\r' || line[0] == '\n' then []
    else [line[0]] + StripLineEnd(line[1..])
  }

  /** A stripped line is kept when it has at least two characters and is
      not a comment. */
  predicate IsEntry(line: string) {
    |line| >= 2 && line[0] != '#'
  }

  /** The kept lines, in file order, before the cap. */
  function KeptLines(lines: seq<string>): (r: seq<string>)
    ensures |r| <= |lines|
    ensures forall k :: 0 <= k < |r| ==> IsEntry(r[k])
    ensures forall k :: 0 <= k < |r| ==> '\r' !in r[k] && '\n' !in r[k]
    decreases |lines|
  {
    if lines == [] then []
    else
      var rest := KeptLines(lines[..|lines| - 1]);
      var line := StripLineEnd(lines[|lines| - 1]);
      if IsEntry(line) then rest + [line] else rest
  }

  /** The first `MaxWhitelistItems` of `entries`. */
  function Capped(entries: seq<string>): seq<string> {
    if |entries| <= MaxWhitelistItems then entries else entries[..MaxWhitelistItems]
  }

  /** An entry is kept exactly when it is the stripped form of some line and
      passes the length and comment test. */
  lemma {:induction false} KeptLinesMembers(lines: seq<string>)
    ensures forall e :: e in KeptLines(lines) <==>
              exists k :: 0 <= k < |lines| && e == StripLineEnd(lines[k]) && IsEntry(e)
    decreases |lines|
  {
    if lines != [] {
      var n := |lines| - 1;
      KeptLinesMembers(lines[..n]);
      forall e | e in KeptLines(lines)
        ensures exists k :: 0 <= k < |lines| && e == StripLineEnd(lines[k]) && IsEntry(e)
      {
        if e in KeptLines(lines[..n]) {
          var k :| 0 <= k < n && e == StripLineEnd(lines[..n][k]) && IsEntry(e);
          assert lines[..n][k] == lines[k];
        } else {
          assert e == StripLineEnd(lines[n]) && IsEntry(e);
        }
      }
      forall e | exists k :: 0 <= k < |lines| && e == StripLineEnd(lines[k]) && IsEntry(e)
        ensures e in KeptLines(lines)
      {
        var k :| 0 <= k < |lines| && e == StripLineEnd(lines[k]) && IsEntry(e);
        if k < n {
          assert lines[..n][k] == lines[k];
          assert e in KeptLines(lines[..n]);
        }
      }
    }
  }

  lemma KeptLinesSnoc(lines: seq<string>, i: nat)
    requires i < |lines|
    ensures var line := StripLineEnd(lines[i]);
      KeptLines(lines[..i + 1]) == KeptLines(lines[..i]) + (if IsEntry(line) then [line] else [])
  {
    assert lines[..i + 1][..i] == lines[..i];
  }

  /** The loader's loop over the lines already read from the file. */
  method LoadWhitelist(lines: seq<string>) returns (entries: seq<string>)
    ensures entries == Capped(KeptLines(lines))
    ensures |entries| <= MaxWhitelistItems
    ensures forall e :: e in entries ==> IsEntry(e) && e == StripLineEnd(e)
  {
    entries := [];
    var i := 0;
    while i < |lines|
      invariant 0 <= i <= |lines|
      invariant entries == Capped(KeptLines(lines[..i]))
      invariant |entries| <= MaxWhitelistItems
      invariant forall e :: e in entries ==> IsEntry(e) && e == StripLineEnd(e)
    {
      KeptLinesSnoc(lines, i);
      var line := StripLineEnd(lines[i]);
      if IsEntry(line) {
        if |entries| < MaxWhitelistItems {
          entries := entries + [line];
        }
      }
      StripIsIdempotent(lines[i]);
      i := i + 1;
    }
    assert lines[..i] == lines;
  }

  /** Stripping an already stripped line changes nothing. */
  lemma {:induction false} StripIsIdempotent(line: string)
    ensures StripLineEnd(StripLineEnd(line)) == StripLineEnd(line)
    decreases |line|
  {
    if !(line == [] || line[0] == '\r' || line[0] == '\n') {
      StripIsIdempotent(line[1..]);
      assert ([line[0]] + StripLineEnd(line[1..]))[1..] == StripLineEnd(line[1..]);
    }
  }
}
