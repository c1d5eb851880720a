/**
 The label store (`Cogs/labels.py`): users attach a value (a link, an emote,
 some text) to a lower-case label, show it again, delete it, and list every
 label. The store is a TinyDB table, modelled as its list of documents in
 insertion order; TinyDB's `update`, `get` and `remove` act on the documents
 whose `iid` matches.
 */
module Labels {
  import opened Wrappers
  import opened Strings
  import opened Sorting

  datatype LabelDoc = LabelDoc(iid: string, url: string)

  type LabelTable = seq<LabelDoc>

  datatype LabelError =
    | UppercaseLabel  // `set` with an upper-case letter in the label
    | NoSuchLabel     // `show` or `delete` of a label that is not stored

  /** Whether `set` updated a stored label or inserted a new one; the bot
      posts a different notice for each. */
  datatype SetKind = Updated | Inserted

  /** `str.isupper` on one character, restricted to ASCII. */
  predicate IsUpper(c: char)
  {
    'A' <= c <= 'Z'
  }

  predicate HasUpper(name: string)
  {
    exists i :: 0 <= i < |name| && IsUpper(name[i])
  }

  /** `label_table.contains(query.iid == label)`. */
  predicate Contains(t: LabelTable, name: string)
  {
    exists i :: 0 <= i < |t| && t[i].iid == name
  }

  /** No two documents share a label. */
  predicate UniqueLabels(t: LabelTable)
  {
    forall i, j :: 0 <= i < j < |t| ==> t[i].iid != t[j].iid
  }

  /** `label_table.update({'url': value}, query.iid == label)`. */
  function UpdateUrl(t: LabelTable, name: string, value: string): (r: LabelTable)
    ensures |r| == |t|
    ensures forall i :: 0 <= i < |t| ==>
      r[i] == if t[i].iid == name then LabelDoc(name, value) else t[i]
  {
    if t == [] then []
    else [if t[0].iid == name then LabelDoc(name, value) else t[0]] + UpdateUrl(t[1..], name, value)
  }

  /** The `set` command. */
  function SetLabel(t: LabelTable, name: string, value: string): (r: Result<(LabelTable, SetKind), LabelError>)
    ensures r.Err? <==> HasUpper(name)
    ensures r.Err? ==> r.error == UppercaseLabel
    ensures r.Ok? && Contains(t, name) ==>
      && r.value.1 == Updated
      && |r.value.0| == |t|
      && (forall i :: 0 <= i < |t| ==> r.value.0[i].iid == t[i].iid)
      && (forall i :: 0 <= i < |t| && t[i].iid != name ==> r.value.0[i] == t[i])
      && (forall i :: 0 <= i < |t| && t[i].iid == name ==> r.value.0[i].url == value)
    ensures r.Ok? && !Contains(t, name) ==>
      r.value == (t + [LabelDoc(name, value)], Inserted)
  {
    if HasUpper(name) then Err(UppercaseLabel)
    else if Contains(t, name) then Ok((UpdateUrl(t, name, value), Updated))
    else Ok((t + [LabelDoc(name, value)], Inserted))
  }

  /** The url of the first document with the label (`label_table.get`). */
  function FirstUrl(t: LabelTable, name: string): (url: string)
    requires Contains(t, name)
    ensures exists i :: 0 <= i < |t| && t[i] == LabelDoc(name, url) && forall j :: 0 <= j < i ==> t[j].iid != name
  {
    if t[0].iid == name then t[0].url
    else
      var i :| 0 <= i < |t| && t[i].iid == name;
      assert t[1..][i - 1].iid == name;
      var url := FirstUrl(t[1..], name);
      var m :| 0 <= m < |t[1..]| && t[1..][m] == LabelDoc(name, url) && forall j :: 0 <= j < m ==> t[1..][j].iid != name;
      assert t[m + 1] == LabelDoc(name, url);
      assert forall j :: 0 <= j < m + 1 ==> t[j].iid != name by {
        forall j | 0 <= j < m + 1
          ensures t[j].iid != name
        {
          if j > 0 {
            assert t[j] == t[1..][j - 1];
          }
        }
      }
      url
  }

  /** The `show` command: the stored value, or an error for a missing label. */
  function ShowLabel(t: LabelTable, name: string): (r: Result<string, LabelError>)
    ensures r.Ok? <==> Contains(t, name)
    ensures r.Err? ==> r.error == NoSuchLabel
    ensures r.Ok? ==> exists i :: 0 <= i < |t| && t[i] == LabelDoc(name, r.value) && forall j :: 0 <= j < i ==> t[j].iid != name
  {
    if !Contains(t, name) then Err(NoSuchLabel) else Ok(FirstUrl(t, name))
  }

  /** `label_table.remove(query.iid == label)`. */
  function RemoveLabel(t: LabelTable, name: string): (r: LabelTable)
    ensures forall d :: d in r <==> d in t && d.iid != name
    ensures |r| <= |t|
  {
    if t == [] then []
    else (if t[0].iid == name then [] else [t[0]]) + RemoveLabel(t[1..], name)
  }

  /** `remove` works document by document over a concatenation of tables. */
  lemma {:induction false} RemoveLabelDistributes(a: LabelTable, b: LabelTable, name: string)
    ensures RemoveLabel(a + b, name) == RemoveLabel(a, name) + RemoveLabel(b, name)
  {
    hide RemoveLabel;
    if a == [] {
      assert a + b == b;
      RemoveLabelUnfold(a, name);
    } else {
      var head := if a[0].iid == name then [] else [a[0]];
      assert (a + b)[0] == a[0];
      assert (a + b)[1..] == a[1..] + b;
      RemoveLabelUnfold(a + b, name);
      RemoveLabelUnfold(a, name);
      RemoveLabelDistributes(a[1..], b, name);
      assert head + (RemoveLabel(a[1..], name) + RemoveLabel(b, name)) == (head + RemoveLabel(a[1..], name)) + RemoveLabel(b, name);
    }
  }

  /** A single document is dropped exactly when it has the label; with
      `RemoveLabelDistributes`, the kept documents stay in their order. */
  lemma RemoveLabelOfOne(d: LabelDoc, name: string)
    ensures RemoveLabel([d], name) == if d.iid == name then [] else [d]
  {
    hide RemoveLabel;
    RemoveLabelUnfold([d], name);
    assert [d][1..] == [];
    RemoveLabelUnfold([], name);
  }

  lemma RemoveLabelUnfold(t: LabelTable, name: string)
    ensures RemoveLabel(t, name) ==
      if t == [] then [] else (if t[0].iid == name then [] else [t[0]]) + RemoveLabel(t[1..], name)
  {
  }

  /** The `delete` command. */
  function DeleteLabel(t: LabelTable, name: string): (r: Result<LabelTable, LabelError>)
    ensures r.Ok? <==> Contains(t, name)
    ensures r.Err? ==> r.error == NoSuchLabel
    ensures r.Ok? ==> forall d :: d in r.value <==> d in t && d.iid != name
    ensures r.Ok? ==> |r.value| < |t|
  {
    if !Contains(t, name) then Err(NoSuchLabel)
    else
      RemoveShrinks(t, name);
      Ok(RemoveLabel(t, name))
  }

  lemma {:induction false} RemoveShrinks(t: LabelTable, name: string)
    requires Contains(t, name)
    ensures |RemoveLabel(t, name)| < |t|
  {
    if t[0].iid != name {
      var i :| 0 <= i < |t| && t[i].iid == name;
      assert t[1..][i - 1].iid == name;
      RemoveShrinks(t[1..], name);
    }
  }

  /** `set` inserts only labels that are absent, so a table of distinct labels
      stays one. */
  lemma SetKeepsLabelsUnique(t: LabelTable, name: string, value: string)
    requires UniqueLabels(t)
    requires SetLabel(t, name, value).Ok?
    ensures UniqueLabels(SetLabel(t, name, value).value.0)
  {
  }

  /** After a successful `set`, `show` of that label yields the new value and
      `show` of every other label answers as before. */
  lemma SetThenShow(t: LabelTable, name: string, value: string, other: string)
    requires UniqueLabels(t)
    requires SetLabel(t, name, value).Ok?
    ensures ShowLabel(SetLabel(t, name, value).value.0, name) == Ok(value)
    ensures other != name ==> ShowLabel(SetLabel(t, name, value).value.0, other) == ShowLabel(t, other)
  {
    var t' := SetLabel(t, name, value).value.0;
    SetKeepsLabelsUnique(t, name, value);
    assert Contains(t', name) by {
      if Contains(t, name) {
        var i :| 0 <= i < |t| && t[i].iid == name;
        assert t'[i].iid == name;
      } else {
        assert t'[|t|].iid == name;
      }
    }
    UniqueShow(t', name);
    if other != name {
      if Contains(t, other) {
        var i :| 0 <= i < |t| && t[i].iid == other;
        assert t'[i] == t[i];
        UniqueShow(t, other);
        UniqueShow(t', other);
      } else {
        assert !Contains(t', other);
      }
    }
  }

  /** In a table of distinct labels, `show` answers with the one document's
      value. */
  lemma UniqueShow(t: LabelTable, name: string)
    requires UniqueLabels(t)
    requires Contains(t, name)
    ensures forall i :: 0 <= i < |t| && t[i].iid == name ==> ShowLabel(t, name) == Ok(t[i].url)
  {
  }

  /** After `delete`, the label is gone and every other label is shown as
      before. */
  lemma DeleteThenShow(t: LabelTable, name: string, other: string)
    requires UniqueLabels(t)
    requires DeleteLabel(t, name).Ok?
    ensures ShowLabel(DeleteLabel(t, name).value, name) == Err(NoSuchLabel)
    ensures other != name ==> ShowLabel(DeleteLabel(t, name).value, other) == ShowLabel(t, other)
  {
    var t' := DeleteLabel(t, name).value;
    assert !Contains(t', name) by {
      forall i | 0 <= i < |t'| ensures t'[i].iid != name {
        assert t'[i] in t';
      }
    }
    if other != name {
      if Contains(t, other) {
        var i :| 0 <= i < |t| && t[i].iid == other;
        assert t[i] in t;
        assert t[i] in t';
        var j :| 0 <= j < |t'| && t'[j] == t[i];
        RemoveKeepsUnique(t, name);
        UniqueShow(t, other);
        UniqueShow(t', other);
      } else {
        forall j | 0 <= j < |t'| ensures t'[j].iid != other {
          assert t'[j] in t';
        }
      }
    }
  }

  lemma {:induction false} RemoveKeepsUnique(t: LabelTable, name: string)
    requires UniqueLabels(t)
    ensures UniqueLabels(RemoveLabel(t, name))
  {
    if t != [] {
      RemoveKeepsUnique(t[1..], name);
      var rest := RemoveLabel(t[1..], name);
      forall j | 0 <= j < |rest|
        ensures rest[j].iid != t[0].iid
      {
        assert rest[j] in rest;
        var k :| 0 <= k < |t[1..]| && t[1..][k] == rest[j];
        assert t[k + 1] == rest[j];
      }
    }
  }

  // ---------------------------------------------------------------------------
  // The `labels` listing
  // ---------------------------------------------------------------------------

  const Fence: string := "```"
  /** A listing message is flushed before it would exceed this many characters
      without its closing fence. */
  const FlushLimit: nat := 1997
  const NoLabels: string := "**[INFO]** There are no labels."

  function LabelKey(d: LabelDoc): string
  {
    d.iid
  }

  /** One line of the listing. */
  function LabelLine(d: LabelDoc, linesep: string): string
  {
    "  " + d.iid + linesep
  }

  function LabelLines(docs: seq<LabelDoc>, linesep: string): (r: seq<string>)
    ensures |r| == |docs|
    ensures forall i :: 0 <= i < |docs| ==> r[i] == LabelLine(docs[i], linesep)
  {
    if docs == [] then [] else [LabelLine(docs[0], linesep)] + LabelLines(docs[1..], linesep)
  }

  /** A message that opens and closes with a fence. */
  predicate Fenced(m: string)
  {
    |m| >= 6 && m[..3] == Fence && m[|m| - 3..] == Fence
  }

  /** The text between the fences. */
  function Body(m: string): string
    requires Fenced(m)
  {
    m[3..|m| - 3]
  }

  function Bodies(msgs: seq<string>): string
    requires forall i :: 0 <= i < |msgs| ==> Fenced(msgs[i])
  {
    if msgs == [] then [] else Body(msgs[0]) + Bodies(msgs[1..])
  }

  /** The loop of the `labels` command from the current partial message
      `result` on: a line that would push the message past 1997 characters
      first flushes the message (closing it with a fence) and opens a new one
      with a fence; at the end the last message is closed and posted. */
  function Pack(lines: seq<string>, result: string): (msgs: seq<string>)
    requires |result| >= 3 && result[..3] == Fence
    ensures |msgs| >= 1
    ensures forall i :: 0 <= i < |msgs| ==> Fenced(msgs[i])
    ensures StartsWith(msgs[0], result)
  {
    if lines == [] then [result + Fence]
    else if |result + lines[0]| > FlushLimit then
      [result + Fence] + Pack(lines[1..], Fence + lines[0])
    else
      var msgs := Pack(lines[1..], result + lines[0]);
      assert (result + lines[0])[..|result|] == result;
      assert msgs[0][..|result|] == (msgs[0][..|result + lines[0]|])[..|result|];
      msgs
  }

  /** What the `labels` command posts, message by message. */
  function Listing(t: LabelTable, linesep: string): seq<string>
  {
    if t == [] then [NoLabels]
    else Pack(LabelLines(SortByKey(t, LabelKey), linesep), Fence + "Labels: " + linesep)
  }

  /** The listing loses nothing and repeats nothing: with the fences removed,
      the posted messages spell the partial message followed by every line,
      in order. */
  lemma {:induction false} PackRoundTrip(lines: seq<string>, result: string)
    requires |result| >= 3 && result[..3] == Fence
    ensures Bodies(Pack(lines, result)) == result[3..] + Concat(lines)
  {
    var msgs := Pack(lines, result);
    if lines == [] {
      assert Body(result + Fence) == result[3..];
    } else if |result + lines[0]| > FlushLimit {
      var rest := Pack(lines[1..], Fence + lines[0]);
      PackRoundTrip(lines[1..], Fence + lines[0]);
      assert msgs == [result + Fence] + rest;
      assert msgs[1..] == rest;
      assert Body(result + Fence) == result[3..];
      assert (Fence + lines[0])[3..] == lines[0];
      assert Bodies(msgs) == result[3..] + (lines[0] + Concat(lines[1..]));
    } else {
      PackRoundTrip(lines[1..], result + lines[0]);
      assert (result + lines[0])[3..] == result[3..] + lines[0];
      assert Bodies(msgs) == (result[3..] + lines[0]) + Concat(lines[1..]);
    }
  }

  /** When the partial message and every line are short enough, every posted
      message fits in one Discord message. */
  lemma {:induction false} PackBounded(lines: seq<string>, result: string)
    requires |result| >= 3 && result[..3] == Fence
    requires |result| <= FlushLimit
    requires forall i :: 0 <= i < |lines| ==> |lines[i]| <= FlushLimit - 3
    ensures forall i :: 0 <= i < |Pack(lines, result)| ==> |Pack(lines, result)[i]| <= FlushLimit + 3
  {
    if lines != [] {
      if |result + lines[0]| > FlushLimit {
        PackBounded(lines[1..], Fence + lines[0]);
      } else {
        PackBounded(lines[1..], result + lines[0]);
      }
    }
  }

  /** A message is flushed only when the next line would not fit: when the
      messages up to and including message `i` hold exactly the partial
      message and the first `j` lines, message `i + 1` begins with line `j`,
      which appended to message `i` would have pushed it past 1997
      characters. */
  lemma {:induction false} PackSplitsOnlyWhenFull(lines: seq<string>, result: string, i: nat)
    requires |result| >= 3 && result[..3] == Fence
    requires i < |Pack(lines, result)| - 1
    ensures var msgs := Pack(lines, result);
      exists j :: 0 <= j < |lines|
        && Bodies(msgs[..i + 1]) == result[3..] + Concat(lines[..j])
        && StartsWith(msgs[i + 1], Fence + lines[j])
        && |msgs[i]| - 3 + |lines[j]| > FlushLimit
  {
    hide Pack, Bodies, Concat, StartsWith;
    var msgs := Pack(lines, result);
    PackUnfold(lines, result);
    assert lines != [];
    if |result + lines[0]| > FlushLimit {
      var rest := Pack(lines[1..], Fence + lines[0]);
      assert msgs == [result + Fence] + rest;
      BodiesCons(msgs, i);
      assert msgs[..i + 1][1..] == rest[..i];
      assert Body(result + Fence) == result[3..];
      if i == 0 {
        assert lines[..0] == [];
        assert msgs[..1][1..] == [];
        EmptyBodies();
        assert Bodies(msgs[..1]) == result[3..] + Concat(lines[..0]);
        assert StartsWith(msgs[1], Fence + lines[0]);
      } else {
        PackSplitsOnlyWhenFull(lines[1..], Fence + lines[0], i - 1);
        var j :| 0 <= j < |lines[1..]|
          && Bodies(rest[..i]) == (Fence + lines[0])[3..] + Concat(lines[1..][..j])
          && StartsWith(rest[i], Fence + lines[1..][j])
          && |rest[i - 1]| - 3 + |lines[1..][j]| > FlushLimit;
        assert (Fence + lines[0])[3..] == lines[0];
        ConcatPrefixCons(lines, j);
        assert Bodies(msgs[..i + 1]) == result[3..] + Concat(lines[..j + 1]);
        assert lines[j + 1] == lines[1..][j];
      }
    } else {
      PackSplitsOnlyWhenFull(lines[1..], result + lines[0], i);
      var j :| 0 <= j < |lines[1..]|
        && Bodies(msgs[..i + 1]) == (result + lines[0])[3..] + Concat(lines[1..][..j])
        && StartsWith(msgs[i + 1], Fence + lines[1..][j])
        && |msgs[i]| - 3 + |lines[1..][j]| > FlushLimit;
      assert (result + lines[0])[3..] == result[3..] + lines[0];
      ConcatPrefixCons(lines, j);
      assert Bodies(msgs[..i + 1]) == result[3..] + Concat(lines[..j + 1]);
      assert lines[j + 1] == lines[1..][j];
    }
  }

  lemma PackUnfold(lines: seq<string>, result: string)
    requires |result| >= 3 && result[..3] == Fence
    ensures Pack(lines, result) ==
      if lines == [] then [result + Fence]
      else if |result + lines[0]| > FlushLimit then [result + Fence] + Pack(lines[1..], Fence + lines[0])
      else Pack(lines[1..], result + lines[0])
  {
  }

  lemma EmptyBodies()
    ensures Bodies([]) == [] && Concat([]) == []
  {
  }

  lemma BodiesCons(msgs: seq<string>, i: nat)
    requires i < |msgs|
    requires forall k :: 0 <= k < |msgs| ==> Fenced(msgs[k])
    ensures Bodies(msgs[..i + 1]) == Body(msgs[0]) + Bodies(msgs[..i + 1][1..])
  {
    assert msgs[..i + 1][0] == msgs[0];
  }

  lemma ConcatPrefixCons(lines: seq<string>, j: nat)
    requires j < |lines|
    ensures Concat(lines[..j + 1]) == lines[0] + Concat(lines[1..][..j])
  {
    assert lines[..j + 1][0] == lines[0];
    assert lines[..j + 1][1..] == lines[1..][..j];
  }

  /** The listing of a non-empty table of distinct labels: the labels are in
      strictly ascending order, each stored label exactly once; every message
      is fenced; the fenced bodies spell the header and one line per label;
      and if every line has at most 1994 characters (and the line separator is
      short enough for the header to fit), no message exceeds 2000. An empty table posts only the no-labels notice. */
  lemma ListingSpec(t: LabelTable, linesep: string)
    requires UniqueLabels(t)
    ensures t == [] ==> Listing(t, linesep) == [NoLabels]
    ensures t != [] ==>
      var sorted := SortByKey(t, LabelKey);
      var msgs := Listing(t, linesep);
      && multiset(sorted) == multiset(t)
      && (forall i, j :: 0 <= i < j < |sorted| ==> StrLt(sorted[i].iid, sorted[j].iid))
      && (forall i :: 0 <= i < |msgs| ==> Fenced(msgs[i]))
      && Bodies(msgs) == "Labels: " + linesep + Concat(LabelLines(sorted, linesep))
      && (|linesep| <= 100 && (forall i :: 0 <= i < |t| ==> |LabelLine(t[i], linesep)| <= FlushLimit - 3) ==>
            forall i :: 0 <= i < |msgs| ==> |msgs[i]| <= FlushLimit + 3)
  {
    if t != [] {
      var sorted := SortByKey(t, LabelKey);
      var header := Fence + "Labels: " + linesep;
      var lines := LabelLines(sorted, linesep);
      forall i, j | 0 <= i < j < |sorted|
        ensures StrLt(sorted[i].iid, sorted[j].iid)
      {
        DistinctAfterPermutation(t, sorted, i, j);
      }
      PackRoundTrip(lines, header);
      assert header[3..] == "Labels: " + linesep;
      if |linesep| <= 100 && forall i :: 0 <= i < |t| ==> |LabelLine(t[i], linesep)| <= FlushLimit - 3 {
        forall i | 0 <= i < |lines|
          ensures |lines[i]| <= FlushLimit - 3
        {
          assert sorted[i] in multiset(t);
          var k :| 0 <= k < |t| && t[k] == sorted[i];
        }
        PackBounded(lines, header);
      }
    }
  }

  /** Two positions of a permutation of a table of distinct labels hold
      different labels. */
  lemma DistinctAfterPermutation(t: LabelTable, p: LabelTable, i: int, j: int)
    requires UniqueLabels(t)
    requires multiset(p) == multiset(t)
    requires 0 <= i < j < |p|
    ensures p[i].iid != p[j].iid
  {
    assert p[i] in multiset(t) && p[j] in multiset(t);
    var a :| 0 <= a < |t| && t[a] == p[i];
    var b :| 0 <= b < |t| && t[b] == p[j];
    if p[i] == p[j] {
      var s := p[..i + 1];
      assert multiset(p) == multiset(p[..i + 1]) + multiset(p[i + 1..]) by {
        assert p == p[..i + 1] + p[i + 1..];
      }
      assert p[j] in p[i + 1..];
      assert multiset(p)[p[i]] >= 2;
      assert multiset(t)[t[a]] >= 2;
      CountOfUnique(t, a);
      assert false;
    }
  }

  /** In a table of distinct labels every document occurs once. */
  lemma {:induction false} CountOfUnique(t: LabelTable, a: int)
    requires UniqueLabels(t)
    requires 0 <= a < |t|
    ensures multiset(t)[t[a]] == 1
  {
    if a == 0 {
      assert t == [t[0]] + t[1..];
      assert t[0] !in t[1..];
    } else {
      assert t == [t[0]] + t[1..];
      assert t[1..][a - 1] == t[a];
      CountOfUnique(t[1..], a - 1);
    }
  }
}
