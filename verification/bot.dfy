/**
 The message plumbing of the bot (`bot.py`): splitting a long message into
 chunks that fit Discord's 2000-character limit, quoting the offending message
 in an error post with the characters that could break the quote or ping
 everyone removed, and the start-up check of the configured cog list.
 */
module Bot {
  import opened Wrappers
  import opened Strings

  /** Discord's limit on the length of one message. */
  const MaxMessage: nat := 2000
  /** A fenced message loses its two fences and is re-fenced per chunk, so each
      chunk carries `MaxMessage - 6` characters of the original text. */
  const FencedChunk: nat := 1994
  const Fence: string := "```"

  /** `message_text.startswith('```') and message_text.endswith('```')`; the
      two fences may overlap. */
  predicate IsFenced(text: string)
  {
    StartsWith(text, Fence) && EndsWith(text, Fence)
  }

  /** `text[3:]` followed by `[:-3]`. Python clamps the second slice, so a
      remainder shorter than three characters becomes empty. */
  function Unfence(text: string): (inner: string)
    requires |text| >= 3
    ensures |text| >= 6 ==> inner == text[3..|text| - 3]
    ensures |text| < 6 ==> inner == []
  {
    var rest := text[3..];
    if |rest| >= 3 then rest[..|rest| - 3] else []
  }

  /** `[s[i:i+size] for i in range(0, len(s), size)]`. */
  function Slices(s: string, size: nat): (r: seq<string>)
    requires size > 0
    ensures Concat(r) == s
    ensures (|r| - 1) * size < |s| <= |r| * size
    ensures forall i :: 0 <= i < |r| ==> 1 <= |r[i]| <= size
    ensures forall i :: 0 <= i < |r| - 1 ==> |r[i]| == size
    decreases |s|
  {
    if s == [] then []
    else if |s| <= size then
      [s]
    else
      var rest := Slices(s[size..], size);
      assert s == s[..size] + s[size..];
      assert ([s[..size]] + rest)[1..] == rest;
      [s[..size]] + rest
  }

  lemma MulMonotone(a: int, b: int, n: int)
    requires a <= b && n >= 0
    ensures a * n <= b * n
  {
    assert b * n == a * n + (b - a) * n;
  }

  /** `k` slices of at most `n` characters, all full but the last, cover
      exactly the lengths whose ceiling division by `n` is `k`. */
  lemma CeilOfBounds(len: int, n: int, k: int)
    requires n > 0 && (k - 1) * n < len <= k * n
    ensures (len + n - 1) / n == k
  {
    var y := len + n - 1;
    assert (k - 1) * n + n == k * n;
    var q := y / n;
    assert y == q * n + y % n;
    if q > k {
      MulMonotone(k + 1, q, n);
      assert false;
    } else if q < k {
      MulMonotone(q + 1, k, n);
      assert false;
    }
  }

  function Wrap(chunk: string): string
  {
    Fence + chunk + Fence
  }

  function WrapAll(chunks: seq<string>): (r: seq<string>)
    ensures |r| == |chunks|
    ensures forall i :: 0 <= i < |r| ==> r[i] == Wrap(chunks[i])
  {
    if chunks == [] then [] else [Wrap(chunks[0])] + WrapAll(chunks[1..])
  }

  /** The chunks `post_message` computes for a text message. The loop sends
      only the first of them (its `return` leaves the loop), but the list is
      what the splitting promises. */
  function Chunks(text: string): seq<string>
  {
    if IsFenced(text) then WrapAll(Slices(Unfence(text), FencedChunk))
    else Slices(text, MaxMessage)
  }

  /** A message without fences is cut into consecutive slices of at most 2000
      characters that concatenate back to the message; there are
      ceil(len/2000) of them, none for an empty message. */
  lemma PlainChunks(text: string)
    requires !IsFenced(text)
    ensures Concat(Chunks(text)) == text
    ensures |Chunks(text)| == (|text| + MaxMessage - 1) / MaxMessage
    ensures forall i :: 0 <= i < |Chunks(text)| ==> 1 <= |Chunks(text)[i]| <= MaxMessage
    ensures text == [] <==> Chunks(text) == []
  {
    CeilOfBounds(|text|, MaxMessage, |Chunks(text)|);
  }

  /** A fenced message loses both fences; what is left is cut into slices of
      at most 1994 characters, each fenced again, so that every chunk is a
      fenced message of at most 2000 characters and the chunk bodies
      concatenate back to the unfenced text. */
  lemma FencedChunks(text: string)
    requires IsFenced(text)
    ensures var inner := Unfence(text);
      && |Chunks(text)| == (|inner| + FencedChunk - 1) / FencedChunk
      && (forall i :: 0 <= i < |Chunks(text)| ==>
            && IsFenced(Chunks(text)[i])
            && 7 <= |Chunks(text)[i]| <= MaxMessage)
      && Concat(Slices(inner, FencedChunk)) == inner
      && Chunks(text) == WrapAll(Slices(inner, FencedChunk))
  {
    var r := Chunks(text);
    CeilOfBounds(|Unfence(text)|, FencedChunk, |r|);
    forall i | 0 <= i < |r|
      ensures IsFenced(r[i]) && 7 <= |r[i]| <= MaxMessage
    {
      var c := Slices(Unfence(text), FencedChunk)[i];
      assert r[i] == Fence + c + Fence;
      assert r[i][..3] == Fence;
      assert r[i][|r[i]| - 3..] == Fence;
    }
  }

  /** When the opening and closing fence overlap (three to five characters),
      nothing is left after stripping them and no chunk is produced. */
  lemma OverlappingFences(text: string)
    requires IsFenced(text) && |text| < 6
    ensures Chunks(text) == []
  {
  }

  // ---------------------------------------------------------------------------
  // Error posts
  // ---------------------------------------------------------------------------

  /** `s.replace(c, '')`. */
  function RemoveAll(s: string, c: char): (r: string)
    ensures forall x :: x in r <==> x in s && x != c
  {
    if s == [] then []
    else
      assert s == [s[0]] + s[1..];
      (if s[0] == c then [] else [s[0]]) + RemoveAll(s[1..], c)
  }

  /** `replace(c, '')` keeps every other character as often as it occurs. */
  lemma {:induction false} RemoveAllKeepsCounts(s: string, c: char)
    ensures multiset(RemoveAll(s, c)) == multiset(s)[c := 0]
  {
    if s != [] {
      RemoveAllKeepsCounts(s[1..], c);
      assert s == [s[0]] + s[1..];
    }
  }

  /** A character that may appear in a quote: a backtick would close the quote
      early, an at-sign could tag `@everyone`. */
  predicate QuoteSafe(c: char)
  {
    c != '@' && c != '`'
  }

  /** The quote-safe characters of `s`, in order: the reference definition of
      what sanitising keeps. */
  function KeepQuoteSafe(s: string): string
  {
    if s == [] then []
    else (if QuoteSafe(s[0]) then [s[0]] else []) + KeepQuoteSafe(s[1..])
  }

  /** The two `replace` calls of `post_error`, one after the other. */
  function Sanitize(content: string): (r: string)
    ensures forall i :: 0 <= i < |r| ==> QuoteSafe(r[i])
  {
    var r := RemoveAll(RemoveAll(content, '@'), '`');
    assert forall i :: 0 <= i < |r| ==> r[i] in r;
    r
  }

  /** `replace(c, '')` works piece by piece over a concatenation. */
  lemma {:induction false} RemoveAllDistributes(a: string, b: string, c: char)
    ensures RemoveAll(a + b, c) == RemoveAll(a, c) + RemoveAll(b, c)
  {
    hide RemoveAll;
    if a == [] {
      assert a + b == b;
      RemoveAllUnfold(a, c);
    } else {
      var head := if a[0] == c then [] else [a[0]];
      assert (a + b)[0] == a[0];
      assert (a + b)[1..] == a[1..] + b;
      RemoveAllUnfold(a + b, c);
      RemoveAllUnfold(a, c);
      RemoveAllDistributes(a[1..], b, c);
      assert head + (RemoveAll(a[1..], c) + RemoveAll(b, c)) == (head + RemoveAll(a[1..], c)) + RemoveAll(b, c);
    }
  }

  /** On a single character, `replace(c, '')` drops it exactly when it is `c`;
      with `RemoveAllDistributes`, the kept characters stay in their order. */
  lemma RemoveAllOfOne(x: char, c: char)
    ensures RemoveAll([x], c) == if x == c then [] else [x]
  {
    hide RemoveAll;
    RemoveAllUnfold([x], c);
    assert [x][1..] == [];
    RemoveAllUnfold([], c);
  }

  lemma RemoveAllUnfold(s: string, c: char)
    ensures RemoveAll(s, c) ==
      if s == [] then [] else (if s[0] == c then [] else [s[0]]) + RemoveAll(s[1..], c)
  {
  }

  /** Sanitising removes exactly the at-signs and backticks and keeps every
      other character, in order. */
  lemma {:induction false} SanitizeKeepsTheRest(content: string)
    ensures Sanitize(content) == KeepQuoteSafe(content)
  {
    if content != [] {
      SanitizeKeepsTheRest(content[1..]);
      var head := [content[0]];
      assert content == head + content[1..];
      RemoveAllDistributes(head, content[1..], '@');
      RemoveAllDistributes(RemoveAll(head, '@'), RemoveAll(content[1..], '@'), '`');
    }
  }

  /** A message with nothing to strip is quoted verbatim, and sanitising twice
      is sanitising once. */
  lemma {:induction false} SanitizeFixesSafeText(content: string)
    ensures (forall i :: 0 <= i < |content| ==> QuoteSafe(content[i])) <==> Sanitize(content) == content
    ensures Sanitize(Sanitize(content)) == Sanitize(content)
  {
    SanitizeKeepsTheRest(content);
    SanitizeKeepsTheRest(Sanitize(content));
    KeepQuoteSafeFixes(content);
    KeepQuoteSafeFixes(Sanitize(content));
  }

  lemma {:induction false} KeepQuoteSafeFixes(s: string)
    ensures (forall i :: 0 <= i < |s| ==> QuoteSafe(s[i])) <==> KeepQuoteSafe(s) == s
  {
    if s != [] {
      KeepQuoteSafeFixes(s[1..]);
      KeepQuoteSafeShrinks(s[1..]);
      if forall i :: 0 <= i < |s| ==> QuoteSafe(s[i]) {
        assert forall i :: 0 <= i < |s[1..]| ==> QuoteSafe(s[1..][i]) by {
          forall i | 0 <= i < |s[1..]| ensures QuoteSafe(s[1..][i]) {
            assert s[1..][i] == s[i + 1];
          }
        }
      }
      if KeepQuoteSafe(s) == s {
        assert QuoteSafe(s[0]);
        assert KeepQuoteSafe(s[1..]) == s[1..];
        forall i | 0 <= i < |s| ensures QuoteSafe(s[i]) {
          if i > 0 {
            assert s[i] == s[1..][i - 1];
          }
        }
      }
    }
  }

  lemma {:induction false} KeepQuoteSafeShrinks(s: string)
    ensures |KeepQuoteSafe(s)| <= |s|
  {
    if s != [] {
      KeepQuoteSafeShrinks(s[1..]);
    }
  }

  /** The quote that heads an error post. */
  function Quote(author: string, content: string, linesep: string): string
  {
    "`" + author + ": " + Sanitize(content) + "`" + linesep + linesep
  }

  /** The text `post_error` hands to `post_message`. */
  function ErrorPost(author: string, content: string, errorText: string, addErrorMessage: string, linesep: string): string
  {
    Quote(author, content, linesep) + "**[ERROR]** " + errorText + " " + addErrorMessage
  }

  /** Whatever the quoted message contains, the quote opens at the first
      character, no backtick or at-sign occurs between the author's name and
      the closing backtick, and after the closing backtick come the two line
      separators and the error text. The quoted part is the sanitised
      message. */
  lemma QuoteIsSealed(author: string, content: string, errorText: string, addErrorMessage: string, linesep: string)
    ensures var post := ErrorPost(author, content, errorText, addErrorMessage, linesep);
      var open := |author| + 3;
      var close := open + |Sanitize(content)|;
      && close < |post|
      && post[0] == '`'
      && post[1..open] == author + ": "
      && post[open..close] == Sanitize(content)
      && (forall i :: open <= i < close ==> QuoteSafe(post[i]))
      && post[close] == '`'
      && post[close + 1..] == linesep + linesep + "**[ERROR]** " + errorText + " " + addErrorMessage
  {
    hide Sanitize, RemoveAll;
    var post := ErrorPost(author, content, errorText, addErrorMessage, linesep);
    var open := |author| + 3;
    var s := Sanitize(content);
    var close := open + |s|;
    var tail := linesep + linesep + "**[ERROR]** " + errorText + " " + addErrorMessage;
    assert post == "`" + author + ": " + s + "`" + tail;
    assert post[open..close] == s;
    forall i | open <= i < close ensures QuoteSafe(post[i]) {
      assert post[i] == s[i - open];
    }
  }

  // ---------------------------------------------------------------------------
  // Start-up
  // ---------------------------------------------------------------------------

  const TimedTask: string := "timed_task"

  datatype StartupError =
    | TimedTaskNotFirst
    | ExtensionsFailed(count: nat)

  /** Whether loading the `i`-th configured cog raises: its extension module
      `Cogs.<name>` fails to load (`loads` answers that for a first load), or
      the same name came earlier in the list, so the extension is already
      loaded, or has already failed and fails again. */
  predicate LoadFails(cogs: seq<string>, loads: string -> bool, i: int)
    requires 0 <= i < |cogs|
  {
    !loads("Cogs." + cogs[i]) || cogs[i] in cogs[..i]
  }

  /** How many entries of the cog list raise when loaded. */
  function CountFailed(cogs: seq<string>, loads: string -> bool): (n: nat)
    ensures n == |set i | 0 <= i < |cogs| && LoadFails(cogs, loads, i)|
  {
    if cogs == [] then 0
    else
      var last := |cogs| - 1;
      var rest := CountFailed(cogs[..last], loads);
      FailedSplit(cogs, loads);
      rest + (if LoadFails(cogs, loads, last) then 1 else 0)
  }

  /** The entries failing among all but the last, plus the last one if it fails. */
  lemma FailedSplit(cogs: seq<string>, loads: string -> bool)
    requires cogs != []
    ensures var last := |cogs| - 1;
      var init := cogs[..last];
      |set i | 0 <= i < |cogs| && LoadFails(cogs, loads, i)| ==
      |set i | 0 <= i < |init| && LoadFails(init, loads, i)| + (if LoadFails(cogs, loads, last) then 1 else 0)
  {
    var last := |cogs| - 1;
    var init := cogs[..last];
    var before := set i | 0 <= i < |init| && LoadFails(init, loads, i);
    var all := set i | 0 <= i < |cogs| && LoadFails(cogs, loads, i);
    forall i | 0 <= i < |init|
      ensures LoadFails(init, loads, i) == LoadFails(cogs, loads, i)
    {
      assert init[..i] == cogs[..i];
    }
    assert all == before + (if LoadFails(cogs, loads, last) then {last} else {});
    assert last !in before;
  }

  /** No entry fails exactly when every cog loads and no name is listed twice. */
  lemma NoneFailed(cogs: seq<string>, loads: string -> bool)
    ensures CountFailed(cogs, loads) == 0 <==>
      && (forall i :: 0 <= i < |cogs| ==> loads("Cogs." + cogs[i]))
      && (forall i, j :: 0 <= i < j < |cogs| ==> cogs[i] != cogs[j])
  {
    hide CountFailed;
    var failed := set k | 0 <= k < |cogs| && LoadFails(cogs, loads, k);
    if exists i :: 0 <= i < |cogs| && !loads("Cogs." + cogs[i]) {
      var i :| 0 <= i < |cogs| && !loads("Cogs." + cogs[i]);
      assert i in failed;
    } else if exists i, j :: 0 <= i < j < |cogs| && cogs[i] == cogs[j] {
      var i, j :| 0 <= i < j < |cogs| && cogs[i] == cogs[j];
      assert cogs[..j][i] == cogs[j];
      assert j in failed;
    } else {
      forall k | 0 <= k < |cogs|
        ensures k !in failed
      {
        forall m | 0 <= m < k
          ensures cogs[..k][m] != cogs[k]
        {
          assert cogs[..k][m] == cogs[m];
        }
      }
      assert failed == {};
    }
  }

  /** A cog listed twice fails the second time, even when it loads. */
  lemma RepeatedCogFails()
    ensures CheckCogs(["labels", "labels"], (name: string) => true) == Err(ExtensionsFailed(1))
  {
    var cogs := ["labels", "labels"];
    var loads := (name: string) => true;
    assert LoadFails(cogs, loads, 1) by {
      assert cogs[1] == cogs[..1][0];
    }
    assert !LoadFails(cogs, loads, 0) by {
      assert cogs[..0] == [];
    }
    assert (set i | 0 <= i < |cogs| && LoadFails(cogs, loads, i)) == {1};
  }

  /** The checks of the bot's constructor: the timed task, when configured,
      must be the first cog; then every cog is loaded and the bot refuses to
      run if any of them failed. */
  function CheckCogs(cogs: seq<string>, loads: string -> bool): (r: Result<(), StartupError>)
    ensures r.Ok? <==>
      && (TimedTask in cogs ==> cogs[0] == TimedTask)
      && (forall i :: 0 <= i < |cogs| ==> loads("Cogs." + cogs[i]))
      && (forall i, j :: 0 <= i < j < |cogs| ==> cogs[i] != cogs[j])
    ensures r == Err(TimedTaskNotFirst) <==> TimedTask in cogs && cogs[0] != TimedTask
    ensures r.Err? && r.error.ExtensionsFailed? ==>
      r.error.count == |set i | 0 <= i < |cogs| && LoadFails(cogs, loads, i)| > 0
  {
    if TimedTask in cogs && cogs[0] != TimedTask then Err(TimedTaskNotFirst)
    else
      NoneFailed(cogs, loads);
      var failed := CountFailed(cogs, loads);
      if failed > 0 then Err(ExtensionsFailed(failed)) else Ok(())
  }
}
