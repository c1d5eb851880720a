/**
 The nickname shortcuts of the core cog (`Cogs/core.py`): a dict from a short
 name to a user's nickname, loaded from a JSON file, extended by admins with
 `addshortcut` and printed as an aligned table by `shortcuts`.
 */
module Shortcuts {
  import opened Wrappers
  import opened Strings
  import opened Dicts
  import opened Sorting

  type ShortcutTable = Dict<string>

  datatype ShortcutError =
    | NoShortcuts  // `max` over the empty dict raises, and the command fails

  /** `self.shortcuts[shortcut] = user`: that shortcut now names `user`, and
      every other shortcut keeps its nickname. */
  function AddShortcut(table: ShortcutTable, shortcut: string, user: string): (r: ShortcutTable)
    ensures Get(r, shortcut) == Some(user)
    ensures forall other :: other != shortcut ==> Get(r, other) == Get(table, other)
    ensures DistinctKeys(table) ==> DistinctKeys(r)
    ensures ToMap(r) == ToMap(table)[shortcut := user]
  {
    var r := Put(table, shortcut, user);
    PutKeepsDistinct(table, shortcut, user);
    PutIsMapUpdate(table, shortcut, user);
    GetAgreesWithMap(r, shortcut);
    assert forall other :: other != shortcut ==> Get(r, other) == Get(table, other) by {
      forall other | other != shortcut
        ensures Get(r, other) == Get(table, other)
      {
        GetAgreesWithMap(r, other);
        GetAgreesWithMap(table, other);
      }
    }
    r
  }

  const Header: string := "```Shortcut    Nickname"

  function ShortcutKey(entry: (string, string)): string
  {
    entry.0
  }

  /** One line of the table: the shortcut left-justified to `indent`, two
      spaces, the nickname. */
  function ShortcutLine(entry: (string, string), indent: nat, linesep: string): string
  {
    LJust(entry.0, indent) + "  " + entry.1 + linesep
  }

  function ShortcutLines(entries: seq<(string, string)>, indent: nat, linesep: string): (r: seq<string>)
    ensures |r| == |entries|
    ensures forall i :: 0 <= i < |entries| ==> r[i] == ShortcutLine(entries[i], indent, linesep)
  {
    if entries == [] then []
    else [ShortcutLine(entries[0], indent, linesep)] + ShortcutLines(entries[1..], indent, linesep)
  }

  /** The text the `shortcuts` command posts, or its failure on an empty
      table. */
  function ShortcutListing(table: ShortcutTable, linesep: string): (r: Result<string, ShortcutError>)
    ensures r.Err? <==> table == []
    ensures r.Err? ==> r.error == NoShortcuts
    ensures r.Ok? ==> StartsWith(r.value, Header + linesep + linesep) && EndsWith(r.value, "```")
  {
    if table == [] then Err(NoShortcuts)
    else
      var indent := MaxLength(Keys(table));
      var lines := ShortcutLines(SortByKey(table, ShortcutKey), indent, linesep);
      var head := Header + linesep + linesep;
      var text := head + (Concat(lines) + "```");
      AppendStartsAndEnds(head, Concat(lines) + "```");
      EndsWithLast(head, Concat(lines), "```");
      Ok(text)
  }

  /** A line laid out as `shortcuts` promises: the shortcut, then spaces up to
      column `indent`, then two spaces, the nickname and the line separator. */
  predicate AlignedLine(line: string, shortcut: string, nickname: string, indent: nat, linesep: string)
  {
    && |shortcut| <= indent
    && |line| == indent + 2 + |nickname| + |linesep|
    && line[..|shortcut|] == shortcut
    && (forall k :: |shortcut| <= k < indent ==> line[k] == ' ')
    && line[indent..] == "  " + nickname + linesep
  }

  /** A shortcut no longer than the indent is padded, never cut. */
  lemma LineIsAligned(entry: (string, string), indent: nat, linesep: string)
    requires |entry.0| <= indent
    ensures AlignedLine(ShortcutLine(entry, indent, linesep), entry.0, entry.1, indent, linesep)
  {
    var padded := LJust(entry.0, indent);
    var line := ShortcutLine(entry, indent, linesep);
    assert line == padded + ("  " + entry.1 + linesep);
    assert line[..|entry.0|] == padded[..|entry.0|];
  }

  /** The listing of a non-empty table with distinct shortcuts: one line per
      shortcut in strictly ascending order of shortcut; the indent is the
      longest shortcut's length, and every line is aligned to it. */
  lemma ShortcutListingSpec(table: ShortcutTable, linesep: string)
    requires DistinctKeys(table)
    requires table != []
    ensures var indent := MaxLength(Keys(table));
      var sorted := SortByKey(table, ShortcutKey);
      var lines := ShortcutLines(sorted, indent, linesep);
      && ShortcutListing(table, linesep) == Ok(Header + linesep + linesep + (Concat(lines) + "```"))
      && multiset(sorted) == multiset(table)
      && (forall i, j :: 0 <= i < j < |sorted| ==> StrLt(sorted[i].0, sorted[j].0))
      && (exists i :: 0 <= i < |table| && |table[i].0| == indent)
      && (forall i :: 0 <= i < |lines| ==> AlignedLine(lines[i], sorted[i].0, sorted[i].1, indent, linesep))
  {
    var indent := MaxLength(Keys(table));
    var sorted := SortByKey(table, ShortcutKey);
    var lines := ShortcutLines(sorted, indent, linesep);
    forall i, j | 0 <= i < j < |sorted|
      ensures StrLt(sorted[i].0, sorted[j].0)
    {
      DistinctKeysAfterPermutation(table, sorted, i, j);
    }
    var w :| 0 <= w < |Keys(table)| && |Keys(table)[w]| == indent;
    assert |table[w].0| == indent;
    forall i | 0 <= i < |lines|
      ensures AlignedLine(lines[i], sorted[i].0, sorted[i].1, indent, linesep)
    {
      assert sorted[i] in multiset(table);
      var m :| 0 <= m < |table| && table[m] == sorted[i];
      assert Keys(table)[m] == sorted[i].0;
      LineIsAligned(sorted[i], indent, linesep);
    }
  }
}
