/**
 The chat cleaner of waddle/whatsapp.py: it strips the fixed-width timestamp
 from every exported chat line, drops uninteresting messages, joins what is
 left, and keeps only the characters that are among the 200 most frequent.
 */
module Whatsapp {
  import opened Sequences

  /** Width of the timestamp that starts every exported line. */
  const TimestampWidth: nat := 20
  /** Width of the sender field that follows the timestamp. */
  const SenderWidth: nat := 14
  /** How many of the most frequent characters the cleaned text may use. */
  const CharacterLimit: nat := 200

  /** Python's `s[k:]`: never fails, and is empty once `k` reaches the end. */
  function SliceFrom(s: string, k: nat): (r: string)
    ensures |r| == if |s| <= k then 0 else |s| - k
    ensures forall i :: 0 <= i < |r| ==> r[i] == s[k + i]
  {
    if |s| <= k then [] else s[k..]
  }

  /** Slicing twice is slicing once by the sum. */
  lemma SliceFromTwice(s: string, a: nat, b: nat)
    ensures SliceFrom(SliceFrom(s, a), b) == SliceFrom(s, a + b)
  {
    var r, q := SliceFrom(SliceFrom(s, a), b), SliceFrom(s, a + b);
    assert |r| == |q|;
    forall i | 0 <= i < |r| ensures r[i] == q[i] {
      assert r[i] == SliceFrom(s, a)[b + i] == s[a + b + i];
    }
  }

  /** `remove_timestamp`: the line without its first 20 characters. */
  function RemoveTimestamp(message: string): (r: string)
    ensures |message| >= TimestampWidth ==> message == message[..TimestampWidth] + r
    ensures |message| <= TimestampWidth ==> r == []
  {
    SliceFrom(message, TimestampWidth)
  }

  /** `UNINTERESTING_MESSAGES`: the export's placeholders for media and missed
      calls, a blank message, and the empty message left by a line that ends
      inside its sender field. */
  const UninterestingMessages: seq<string> := ["<media omitted>\n", "missed voice call\n", "\n", ""]

  /** `filter_messages`: true unless the message is one of the uninteresting ones. */
  function FilterMessages(message: string): (keep: bool)
    ensures !keep <==>
      || message == "<media omitted>\n"
      || message == "missed voice call\n"
      || message == "\n"
      || message == ""
  {
    message !in UninterestingMessages
  }

  /** The first comprehension of `clean`: every line without its timestamp. */
  function RemoveTimestamps(chat: seq<string>): (messages: seq<string>)
    ensures |messages| == |chat|
    ensures forall i :: 0 <= i < |chat| ==> messages[i] == RemoveTimestamp(chat[i])
  {
    seq(|chat|, i requires 0 <= i < |chat| => RemoveTimestamp(chat[i]))
  }

  /** Whether `clean` keeps a message whose timestamp is already gone:
      the text after the sender field must not be uninteresting. A message
      that ends within its sender field is never kept; one whose text is
      longer than the longest uninteresting message (18 characters) always is. */
  function Interesting(message: string): (keep: bool)
    ensures |message| <= SenderWidth ==> !keep
    ensures |message| > SenderWidth + 18 ==> keep
  {
    FilterMessages(SliceFrom(message, SenderWidth))
  }

  /** The second comprehension of `clean`: the interesting messages, in order,
      each kept whole (sender field included). */
  function KeepInteresting(messages: seq<string>): (kept: seq<string>)
    ensures |kept| <= |messages|
    ensures forall m :: m in kept ==> m in messages && Interesting(m)
    ensures forall m :: m in messages && Interesting(m) ==> m in kept
  {
    if messages == [] then []
    else
      (if Interesting(messages[0]) then [messages[0]] else [])
      + KeepInteresting(messages[1..])
  }

  /** The lines of a chat that `clean` retains, without their timestamps. */
  function RetainedMessages(chat: seq<string>): (kept: seq<string>)
    ensures |kept| <= |chat|
    ensures forall m :: m in kept ==> Interesting(m) && exists line :: line in chat && m == RemoveTimestamp(line)
    ensures forall line :: line in chat && Interesting(RemoveTimestamp(line)) ==> RemoveTimestamp(line) in kept
  {
    KeepInteresting(RemoveTimestamps(chat))
  }

  /** `''.join(...)`: the messages one after the other. */
  function Join(messages: seq<string>): (text: string)
    ensures |text| == TotalLength(messages)
  {
    if messages == [] then [] else messages[0] + Join(messages[1..])
  }

  /** The sum of the lengths of the messages. */
  function TotalLength(messages: seq<string>): nat
  {
    if messages == [] then 0 else |messages[0]| + TotalLength(messages[1..])
  }

  /** `s` without its element at index `k`, the others in their order. */
  function RemoveAt(s: string, k: nat): (r: string)
    requires k < |s|
    ensures |r| == |s| - 1
    ensures forall i :: 0 <= i < |r| ==> r[i] == if i < k then s[i] else s[i + 1]
  {
    seq(|s| - 1, i requires 0 <= i < |s| - 1 => if i < k then s[i] else s[i + 1])
  }

  /** The elements left by `RemoveAt` are those of `s`, less `s[k]` when
      `s` has no duplicates. */
  lemma RemoveAtElements(s: string, k: nat)
    requires k < |s|
    ensures Elements(RemoveAt(s, k)) <= Elements(s)
    ensures Elements(s) == Elements(RemoveAt(s, k)) + {s[k]}
    ensures NoDuplicates(s) ==> NoDuplicates(RemoveAt(s, k)) && s[k] !in RemoveAt(s, k)
  {
    var r := RemoveAt(s, k);
    forall c | c in s && c != s[k] ensures c in r {
      var i :| 0 <= i < |s| && s[i] == c;
      assert r[if i < k then i else i - 1] == c;
    }
  }

  /** The index of the first candidate at or after index `from` whose count in
      `text` is largest among those candidates. */
  function FirstMostCommonFrom(candidates: string, text: string, from: nat): (k: nat)
    requires from < |candidates|
    ensures from <= k < |candidates|
    ensures forall j :: from <= j < |candidates| ==> Count(text, candidates[j]) <= Count(text, candidates[k])
    ensures forall j :: from <= j < k ==> Count(text, candidates[j]) < Count(text, candidates[k])
    decreases |candidates| - from
  {
    if from == |candidates| - 1 then from
    else
      var k := FirstMostCommonFrom(candidates, text, from + 1);
      if Count(text, candidates[from]) >= Count(text, candidates[k]) then from else k
  }

  /** The index of the first candidate whose count in `text` is largest. */
  function FirstMostCommon(candidates: string, text: string): (k: nat)
    requires |candidates| > 0
    ensures k < |candidates|
    ensures forall j :: 0 <= j < |candidates| ==> Count(text, candidates[j]) <= Count(text, candidates[k])
    ensures forall j :: 0 <= j < k ==> Count(text, candidates[j]) < Count(text, candidates[k])
  {
    FirstMostCommonFrom(candidates, text, 0)
  }

  /** The first `n` candidates after a stable sort by decreasing count in `text`:
      the most common one first, ties going to the candidate listed first. */
  function Ranked(candidates: string, text: string, n: nat): (r: string)
    ensures |r| == if n <= |candidates| then n else |candidates|
    ensures Elements(r) <= Elements(candidates)
    decreases n
  {
    if n == 0 || candidates == [] then []
    else
      var k := FirstMostCommon(candidates, text);
      RemoveAtElements(candidates, k);
      [candidates[k]] + Ranked(RemoveAt(candidates, k), text, n - 1)
  }

  /** One step of the ranking: the first most common candidate, then the
      ranking of the others. */
  lemma RankedStep(candidates: string, text: string, n: nat) returns (k: nat, rest: string)
    requires n > 0 && candidates != []
    ensures k < |candidates| && k == FirstMostCommon(candidates, text)
    ensures rest == RemoveAt(candidates, k)
    ensures Ranked(candidates, text, n) == [candidates[k]] + Ranked(rest, text, n - 1)
  {
    k := FirstMostCommon(candidates, text);
    rest := RemoveAt(candidates, k);
  }

  /** Ranking a duplicate-free list of candidates ranks each at most once. */
  lemma {:induction false} RankedNoDuplicates(candidates: string, text: string, n: nat)
    requires NoDuplicates(candidates)
    ensures NoDuplicates(Ranked(candidates, text, n))
    decreases n
  {
    if n != 0 && candidates != [] {
      var k, rest := RankedStep(candidates, text, n);
      RemoveAtElements(candidates, k);
      RankedNoDuplicates(rest, text, n - 1);
      var r := Ranked(rest, text, n - 1);
      var full := Ranked(candidates, text, n);
      assert candidates[k] !in Elements(r);
      forall i, j | 0 <= i < j < |full| ensures full[i] != full[j] {
        assert full[j] == r[j - 1] && r[j - 1] in Elements(r);
        if i > 0 {
          assert full[i] == r[i - 1];
        }
      }
    }
  }

  /** `Counter(text).most_common(n)`, characters only. */
  function MostCommon(text: string, n: nat): (r: string)
    ensures |r| == if n <= |Elements(text)| then n else |Elements(text)|
    ensures NoDuplicates(r)
    ensures forall c :: c in r ==> c in text
  {
    RankedNoDuplicates(Distinct(text), text, n);
    NoDuplicatesCardinality(Distinct(text));
    assert Elements(Distinct(text)) == Elements(text);
    var r := Ranked(Distinct(text), text, n);
    assert forall c :: c in r ==> c in Elements(r);
    r
  }

  /** `_identify_most_common_characters`: the characters of `Counter(text).most_common(n)`.
      There are min(n, number of distinct characters) of them, all from `text`. */
  function IdentifyMostCommonCharacters(text: string, n: nat): (chosen: set<char>)
    ensures |chosen| == if n <= |Elements(text)| then n else |Elements(text)|
    ensures forall c :: c in chosen ==> c in text
  {
    var r := MostCommon(text, n);
    NoDuplicatesCardinality(r);
    Elements(r)
  }

  /** The last comprehension of `clean`: the characters of `text` that are in
      `keep`, in their order. */
  function KeepCharacters(text: string, keep: set<char>): (r: string)
    ensures |r| <= |text|
    ensures forall c :: c in r ==> c in keep
  {
    if text == [] then []
    else (if text[0] in keep then [text[0]] else []) + KeepCharacters(text[1..], keep)
  }

  /** A character in `keep` is kept every time it occurs, any other never. */
  lemma {:induction false} KeepCharactersCounts(text: string, keep: set<char>, c: char)
    ensures Count(KeepCharacters(text, keep), c) == if c in keep then Count(text, c) else 0
  {
    if text != [] {
      assert text == [text[0]] + text[1..];
      KeepCharactersCounts(text[1..], keep, c);
    }
  }

  /** When every character of `text` is to be kept, `text` comes back unchanged. */
  lemma {:induction false} KeepCharactersAll(text: string, keep: set<char>)
    requires Elements(text) <= keep
    ensures KeepCharacters(text, keep) == text
  {
    if text != [] {
      assert text == [text[0]] + text[1..];
      assert Elements(text[1..]) <= Elements(text);
      KeepCharactersAll(text[1..], keep);
    }
  }

  /** The concatenated text `clean` works on. */
  function RetainedText(chat: seq<string>): (text: string)
    ensures |text| == TotalLength(RetainedMessages(chat))
    ensures chat == [] ==> text == []
  {
    Join(RetainedMessages(chat))
  }

  /** `clean`: the retained text restricted to its 200 most frequent characters. */
  function Clean(chat: seq<string>): (cleaned: string)
    ensures |cleaned| <= TotalLength(RetainedMessages(chat))
    ensures chat == [] ==> cleaned == []
    ensures forall c :: c in cleaned ==> c in IdentifyMostCommonCharacters(RetainedText(chat), CharacterLimit)
    ensures forall c :: Count(cleaned, c) ==
                        if c in IdentifyMostCommonCharacters(RetainedText(chat), CharacterLimit)
                        then Count(RetainedText(chat), c) else 0
  {
    var text := RetainedText(chat);
    forall c ensures Count(KeepCharacters(text, IdentifyMostCommonCharacters(text, CharacterLimit)), c) ==
                     if c in IdentifyMostCommonCharacters(text, CharacterLimit) then Count(text, c) else 0 {
      KeepCharactersCounts(text, IdentifyMostCommonCharacters(text, CharacterLimit), c);
    }
    KeepCharacters(text, IdentifyMostCommonCharacters(text, CharacterLimit))
  }

  // ---------------------------------------------------------------------
  // Lemmas

  /** Joining distributes over concatenation of message lists. */
  lemma {:induction false} JoinAppend(a: seq<string>, b: seq<string>)
    ensures Join(a + b) == Join(a) + Join(b)
  {
    if a != [] {
      assert (a + b)[1..] == a[1..] + b;
      JoinAppend(a[1..], b);
    } else {
      assert a + b == b;
    }
  }

  /** Filtering interesting messages keeps their relative order: the filter of
      a concatenation is the concatenation of the filters. */
  lemma {:induction false} KeepInterestingAppend(a: seq<string>, b: seq<string>)
    ensures KeepInteresting(a + b) == KeepInteresting(a) + KeepInteresting(b)
  {
    if a != [] {
      assert (a + b)[1..] == a[1..] + b;
      KeepInterestingAppend(a[1..], b);
    } else {
      assert a + b == b;
    }
  }

  /** The retained messages of two chats one after the other are those of the
      first followed by those of the second. */
  lemma RetainedMessagesAppend(a: seq<string>, b: seq<string>)
    ensures RetainedMessages(a + b) == RetainedMessages(a) + RetainedMessages(b)
  {
    assert RemoveTimestamps(a + b) == RemoveTimestamps(a) + RemoveTimestamps(b);
    KeepInterestingAppend(RemoveTimestamps(a), RemoveTimestamps(b));
  }

  /** The text `clean` works on is built line by line, in chat order. */
  lemma RetainedTextAppend(a: seq<string>, b: seq<string>)
    ensures RetainedText(a + b) == RetainedText(a) + RetainedText(b)
  {
    RetainedMessagesAppend(a, b);
    JoinAppend(RetainedMessages(a), RetainedMessages(b));
  }

  /** A single line is retained exactly when what follows its first 20 + 14
      characters is not uninteresting, and it is then retained without its
      timestamp but with its sender field. */
  lemma RetainedMessagesSingle(line: string)
    ensures RetainedMessages([line]) ==
              if FilterMessages(SliceFrom(line, TimestampWidth + SenderWidth))
              then [RemoveTimestamp(line)] else []
    ensures |line| >= TimestampWidth + SenderWidth ==>
              RemoveTimestamp(line)[..SenderWidth] == line[TimestampWidth..TimestampWidth + SenderWidth]
  {
    SliceFromTwice(line, TimestampWidth, SenderWidth);
    assert RemoveTimestamps([line]) == [RemoveTimestamp(line)];
    assert KeepInteresting([RemoveTimestamp(line)]) ==
      (if Interesting(RemoveTimestamp(line)) then [RemoveTimestamp(line)] else []) + KeepInteresting([]);
  }

  /** Keeping characters preserves their order: the result for a concatenation
      is the concatenation of the results. */
  lemma {:induction false} KeepCharactersAppend(a: string, b: string, keep: set<char>)
    ensures KeepCharacters(a + b, keep) == KeepCharacters(a, keep) + KeepCharacters(b, keep)
  {
    if a != [] {
      var head := if a[0] in keep then [a[0]] else [];
      assert (a + b)[0] == a[0] && (a + b)[1..] == a[1..] + b;
      calc {
        KeepCharacters(a + b, keep);
        head + KeepCharacters(a[1..] + b, keep);
        { KeepCharactersAppend(a[1..], b, keep); }
        head + (KeepCharacters(a[1..], keep) + KeepCharacters(b, keep));
        (head + KeepCharacters(a[1..], keep)) + KeepCharacters(b, keep);
      }
    } else {
      assert a + b == b;
    }
  }

  /** `x` occurs before `y` in `s`. */
  predicate Before(s: string, x: char, y: char)
  {
    exists i, j :: 0 <= i < j < |s| && s[i] == x && s[j] == y
  }

  /** Some occurrence of `x` in `s` has no `y` before it: when `x != y`, the
      first `x` comes before the first `y` (or `y` does not occur). */
  predicate FirstOccursBefore(s: string, x: char, y: char)
  {
    exists i :: 0 <= i < |s| && s[i] == x && forall j :: 0 <= j < i ==> s[j] != y
  }

  /** `Distinct` lists the characters in order of first occurrence: if `x`
      comes before `y` there, then `x` occurs in `s` before any `y`. */
  lemma {:induction false} DistinctFirstOccurrence(s: string, x: char, y: char)
    requires Before(Distinct(s), x, y)
    ensures FirstOccursBefore(s, x, y)
  {
    if s != [] {
      var init, last := s[..|s| - 1], s[|s| - 1];
      assert s == init + [last];
      var d, r := Distinct(init), Distinct(s);
      var i, j :| 0 <= i < j < |r| && r[i] == x && r[j] == y;
      if last in d || j < |d| {
        assert r[..|d|] == d;
        assert d[i] == x && d[j] == y;
        DistinctFirstOccurrence(init, x, y);
        var k :| 0 <= k < |init| && init[k] == x && forall m :: 0 <= m < k ==> init[m] != y;
        assert s[k] == x;
      } else {
        assert r == d + [last] && y == last && x == d[i];
        assert x in init;
        var k :| 0 <= k < |init| && init[k] == x;
        assert s[k] == x;
        assert forall m :: 0 <= m < k ==> s[m] == init[m] && init[m] in d;
      }
    }
  }

  /** Removing an element keeps the order of the others. */
  lemma RemoveAtKeepsOrder(s: string, k: nat, x: char, y: char)
    requires k < |s|
    requires Before(RemoveAt(s, k), x, y)
    ensures Before(s, x, y)
  {
    var r := RemoveAt(s, k);
    var i, j :| 0 <= i < j < |r| && r[i] == x && r[j] == y;
    var i', j' := if i < k then i else i + 1, if j < k then j else j + 1;
    assert s[i'] == x && s[j'] == y;
  }

  /** A candidate other than the first most common one is ranked by the
      recursive step exactly when it is ranked, and left among the other
      candidates exactly when it is a candidate. */
  lemma RankedRest(candidates: string, text: string, n: nat, k: nat, rest: string, x: char)
    requires n > 0 && k < |candidates| && k == FirstMostCommon(candidates, text)
    requires rest == RemoveAt(candidates, k)
    requires x != candidates[k]
    ensures x in Ranked(candidates, text, n) <==> x in Ranked(rest, text, n - 1)
    ensures x in candidates <==> x in rest
  {
    RemoveAtElements(candidates, k);
    assert x in candidates <==> x in Elements(candidates);
    assert x in rest <==> x in Elements(rest);
  }

  /** Every ranked candidate occurs in `text` at least as often as every
      candidate left out. */
  lemma {:induction false} RankedDominates(candidates: string, text: string, n: nat, c: char, d: char)
    requires c in Ranked(candidates, text, n)
    requires d in candidates && d !in Ranked(candidates, text, n)
    ensures Count(text, c) >= Count(text, d)
    decreases n
  {
    var k, rest := RankedStep(candidates, text, n);
    assert d != candidates[k];
    if c == candidates[k] {
      var j :| 0 <= j < |candidates| && candidates[j] == d;
    } else {
      RankedRest(candidates, text, n, k, rest, c);
      RankedRest(candidates, text, n, k, rest, d);
      assert c in Ranked(rest, text, n - 1);
      assert d in rest;
      assert d !in Ranked(rest, text, n - 1);
      RankedDominates(rest, text, n - 1, c, d);
    }
  }

  /** Among candidates with equal counts, the one listed first is ranked:
      a ranked candidate tied with one left out precedes it. */
  lemma {:induction false} RankedTiesGoFirst(candidates: string, text: string, n: nat, c: char, d: char)
    requires c in Ranked(candidates, text, n)
    requires d in candidates && d !in Ranked(candidates, text, n)
    requires Count(text, c) == Count(text, d)
    ensures Before(candidates, c, d)
    decreases n
  {
    var k, rest := RankedStep(candidates, text, n);
    assert d != candidates[k];
    if c == candidates[k] {
      var j :| 0 <= j < |candidates| && candidates[j] == d;
      assert k < j by {
        assert j != k;
      }
      assert candidates[k] == c && candidates[j] == d;
    } else {
      RankedRest(candidates, text, n, k, rest, c);
      RankedRest(candidates, text, n, k, rest, d);
      RankedTiesGoFirst(rest, text, n - 1, c, d);
      RemoveAtKeepsOrder(candidates, k, c, d);
    }
  }

  /** The ranking lists counts in decreasing order. */
  lemma {:induction false} RankedDescending(candidates: string, text: string, n: nat, i: nat, j: nat)
    requires i < j < |Ranked(candidates, text, n)|
    ensures Count(text, Ranked(candidates, text, n)[i]) >= Count(text, Ranked(candidates, text, n)[j])
    decreases n
  {
    var k, rest := RankedStep(candidates, text, n);
    var r := Ranked(rest, text, n - 1);
    var full := Ranked(candidates, text, n);
    assert full[j] == r[j - 1];
    if i == 0 {
      RemoveAtElements(candidates, k);
      assert r[j - 1] in Elements(r);
      assert r[j - 1] in Elements(candidates);
      assert r[j - 1] in candidates;
      assert full[i] == candidates[k];
    } else {
      assert full[i] == r[i - 1];
      RankedDescending(rest, text, n - 1, i - 1, j - 1);
    }
  }

  /** Asking for at least as many candidates as there are ranks them all. */
  lemma {:induction false} RankedAll(candidates: string, text: string, n: nat)
    requires |candidates| <= n
    ensures Elements(Ranked(candidates, text, n)) == Elements(candidates)
    decreases n
  {
    if n != 0 && candidates != [] {
      var k, rest := RankedStep(candidates, text, n);
      var r := Ranked(rest, text, n - 1);
      calc {
        Elements(Ranked(candidates, text, n));
        Elements([candidates[k]] + r);
        { assert forall x :: x in [candidates[k]] + r <==> x == candidates[k] || x in r; }
        Elements(r) + {candidates[k]};
        { RankedAll(rest, text, n - 1); }
        Elements(rest) + {candidates[k]};
        { RemoveAtElements(candidates, k); }
        Elements(candidates);
      }
    } else {
      assert Ranked(candidates, text, n) == [] == candidates;
    }
  }

  /** Every character chosen by `_identify_most_common_characters` occurs in
      `text` at least as often as every character of `text` not chosen. */
  lemma MostCommonDominates(text: string, n: nat, c: char, d: char)
    requires c in IdentifyMostCommonCharacters(text, n)
    requires d in text && d !in IdentifyMostCommonCharacters(text, n)
    ensures Count(text, c) >= Count(text, d)
  {
    RankedDominates(Distinct(text), text, n, c, d);
  }

  /** Ties are broken in favour of the character that occurs first in `text`,
      the order in which `Counter` meets its keys. */
  lemma MostCommonTiesGoFirst(text: string, n: nat, c: char, d: char)
    requires c in IdentifyMostCommonCharacters(text, n)
    requires d in text && d !in IdentifyMostCommonCharacters(text, n)
    requires Count(text, c) == Count(text, d)
    ensures Before(Distinct(text), c, d)
    ensures FirstOccursBefore(text, c, d)
  {
    RankedTiesGoFirst(Distinct(text), text, n, c, d);
    DistinctFirstOccurrence(text, c, d);
  }

  /** With at most `n` distinct characters, all of them are chosen. */
  lemma MostCommonAll(text: string, n: nat)
    requires |Elements(text)| <= n
    ensures IdentifyMostCommonCharacters(text, n) == Elements(text)
  {
    NoDuplicatesCardinality(Distinct(text));
    assert Elements(Distinct(text)) == Elements(text);
    RankedAll(Distinct(text), text, n);
  }

  /** A chat whose retained text uses at most 200 distinct characters comes
      out of `clean` unchanged, character for character. */
  lemma CleanKeepsSmallAlphabet(chat: seq<string>)
    requires |Elements(RetainedText(chat))| <= CharacterLimit
    ensures Clean(chat) == RetainedText(chat)
  {
    MostCommonAll(RetainedText(chat), CharacterLimit);
    KeepCharactersAll(RetainedText(chat), Elements(RetainedText(chat)));
  }

  /** One exported line in the layout `clean` expects, a 20-character
      timestamp and then a 14-character sender field: it is retained, with
      its sender field, exactly when its message is not uninteresting. */
  lemma RetainedLine(stamp: string, sender: string, body: string)
    requires |stamp| == TimestampWidth && |sender| == SenderWidth
    ensures RetainedMessages([stamp + sender + body]) == if FilterMessages(body) then [sender + body] else []
  {
    var line := stamp + sender + body;
    assert RemoveTimestamp(line) == line[|stamp|..] == sender + body;
    assert SliceFrom(line, TimestampWidth + SenderWidth) == line[|stamp + sender|..] == body;
    RetainedMessagesSingle(line);
  }

  /** Of two such lines, the one whose message is the media placeholder is
      dropped and the other is kept together with its sender field. */
  lemma RetainedTwoLines(stamp1: string, stamp2: string, sender: string)
    requires |stamp1| == TimestampWidth && |stamp2| == TimestampWidth && |sender| == SenderWidth
    ensures RetainedText([stamp1 + sender + "hi\n", stamp2 + sender + "<media omitted>\n"]) == sender + "hi\n"
  {
    var text, media := stamp1 + sender + "hi\n", stamp2 + sender + "<media omitted>\n";
    RetainedLine(stamp1, sender, "hi\n");
    RetainedLine(stamp2, sender, "<media omitted>\n");
    RetainedTextAppend([text], [media]);
    assert [text, media] == [text] + [media];
    assert RetainedText([text]) == Join([sender + "hi\n"]) == sender + "hi\n";
    assert RetainedText([media]) == Join([]) == "";
  }

  /** The same two lines through all of `clean`: the retained text has few
      distinct characters, so every one of them survives the selection. */
  lemma CleanTwoLines(stamp1: string, stamp2: string, sender: string)
    requires |stamp1| == TimestampWidth && |stamp2| == TimestampWidth && |sender| == SenderWidth
    ensures Clean([stamp1 + sender + "hi\n", stamp2 + sender + "<media omitted>\n"]) == sender + "hi\n"
  {
    var chat := [stamp1 + sender + "hi\n", stamp2 + sender + "<media omitted>\n"];
    RetainedTwoLines(stamp1, stamp2, sender);
    ElementsCardinality(RetainedText(chat));
    CleanKeepsSmallAlphabet(chat);
  }
}
