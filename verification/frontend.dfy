/** The browser side (frontend/src/App.jsx): the filter applied to each OCR result before it is
    sent, the newline flattening of the sent text, and the bounded log of the collector's
    `received` replies shown to the user. */
module Frontend {
  import opened Wrappers
  import opened Text
  import Pattern
  import Backend

  /** "획득" ("acquired"). */
  const AcquiredMarker: string := "\U{D68D}\U{B4DD}"

  /** `p` occurs in `text` at position `k`. */
  predicate OccursAt(text: string, p: string, k: int)
  {
    0 <= k && k + |p| <= |text| && text[k..k + |p|] == p
  }

  /** `text.includes(p)`: `p` occurs in `text` at some position. */
  predicate Contains(text: string, p: string)
  {
    exists k :: 0 <= k <= |text| - |p| && OccursAt(text, p, k)
  }

  /** A one-character string occurs exactly where that character does. */
  lemma ContainsChar(text: string, c: char)
    ensures Contains(text, [c]) <==> c in text
  {
    if c in text {
      var k :| 0 <= k < |text| && text[k] == c;
      assert OccursAt(text, [c], k);
    }
    if Contains(text, [c]) {
      var k :| 0 <= k <= |text| - 1 && OccursAt(text, [c], k);
      assert text[k] == text[k..k + 1][0];
    }
  }

  /** The filter of `analyzeFrames`: the text contains the character `x` or the string "획득". */
  predicate IsRelevant(text: string)
    ensures IsRelevant(text) <==> 'x' in text || Contains(text, AcquiredMarker)
  {
    ContainsChar(text, 'x');
    Contains(text, "x") || Contains(text, AcquiredMarker)
  }

  /** `text.replace(/\n/g, " ")`: every line feed becomes a space, everything else stays. */
  function Normalize(text: string): (r: string)
    ensures |r| == |text|
    ensures forall k :: 0 <= k < |text| ==> r[k] == (if text[k] == '\n' then ' ' else text[k])
    ensures '\n' !in r
  {
    seq(|text|, k requires 0 <= k < |text| => if text[k] == '\n' then ' ' else text[k])
  }

  /** Flattening twice is flattening once. */
  lemma NormalizeIdempotent(text: string)
    ensures Normalize(Normalize(text)) == Normalize(text)
  {
    var r := Normalize(text);
    assert Normalize(r) == r by {
      forall k | 0 <= k < |r| ensures Normalize(r)[k] == r[k] {}
    }
  }

  /** Flattening neither creates nor destroys an occurrence of a string that contains no line
      feed and no space. */
  lemma NormalizeKeepsOccurrences(text: string, p: string)
    requires '\n' !in p && ' ' !in p
    ensures Contains(Normalize(text), p) <==> Contains(text, p)
  {
    var r := Normalize(text);
    if Contains(text, p) {
      var k :| 0 <= k <= |text| - |p| && OccursAt(text, p, k);
      assert OccursAt(r, p, k) by {
        forall j | 0 <= j < |p| ensures r[k + j] == p[j] {
          assert text[k + j] == p[j];
        }
      }
    }
    if Contains(r, p) {
      var k :| 0 <= k <= |r| - |p| && OccursAt(r, p, k);
      assert OccursAt(text, p, k) by {
        forall j | 0 <= j < |p| ensures text[k + j] == p[j] {
          assert r[k + j] == p[j];
          assert p[j] != ' ';
        }
      }
    }
  }

  /** Relevant text stays relevant once flattened, and irrelevant text stays irrelevant. */
  lemma NormalizeKeepsRelevance(text: string)
    ensures IsRelevant(Normalize(text)) <==> IsRelevant(text)
  {
    NormalizeKeepsOccurrences(text, "x");
    NormalizeKeepsOccurrences(text, AcquiredMarker);
  }

  /** Flattening works character by character, so it commutes with taking a slice. */
  lemma NormalizeSlice(s: string, a: nat, b: nat)
    requires a <= b <= |s|
    ensures Normalize(s)[a..b] == Normalize(s[a..b])
  {
    var l, r := Normalize(s)[a..b], Normalize(s[a..b]);
    forall k | 0 <= k < b - a ensures l[k] == r[k] {
      assert s[a..b][k] == s[a + k];
    }
  }

  /** Two characters the pattern cannot tell apart. */
  predicate SameClasses(c: char, d: char)
  {
    && (IsSpace(c) <==> IsSpace(d)) && (IsNameChar(c) <==> IsNameChar(d))
    && (IsDigit(c) <==> IsDigit(d)) && (c == 'x' <==> d == 'x')
  }

  /** Two strings the pattern cannot tell apart, character by character. */
  predicate Indistinguishable(s: string, t: string)
  {
    |s| == |t| && forall k :: 0 <= k < |s| ==> SameClasses(s[k], t[k])
  }

  lemma SeparatorTransfer(g: string, h: string)
    requires Indistinguishable(g, h) && Pattern.IsSeparator(g)
    ensures Pattern.IsSeparator(h)
  {
    assert SameClasses(g[0], h[0]);
    if |g| == 1 {
      assert h == [h[0]];
    } else {
      assert SameClasses(g[1], h[1]);
      if |g| == 3 { assert SameClasses(g[2], h[2]); }
    }
  }

  /** A match in one of two indistinguishable strings is a match in the other. */
  lemma MatchesTransfer(s: string, t: string, m: Pattern.Span)
    requires Indistinguishable(s, t) && Pattern.Matches(s, m)
    ensures Pattern.Matches(t, m)
  {
    var g, h := s[m.nameEnd..m.countStart], t[m.nameEnd..m.countStart];
    forall k | 0 <= k < |g| ensures SameClasses(g[k], h[k]) {
      assert g[k] == s[m.nameEnd + k] && h[k] == t[m.nameEnd + k];
    }
    SeparatorTransfer(g, h);
    forall k | m.start <= k < m.nameEnd ensures IsNameChar(t[k]) {
      assert SameClasses(s[k], t[k]);
    }
    forall k | m.countStart <= k < m.end ensures IsDigit(t[k]) {
      assert SameClasses(s[k], t[k]);
    }
  }

  /** The pattern cannot tell a text from its flattening: a line feed and a space are both
      whitespace. */
  lemma NormalizeIndistinguishable(s: string)
    ensures Indistinguishable(s, Normalize(s)) && Indistinguishable(Normalize(s), s)
  {
  }

  /** So the pattern matches the flattened text exactly where it matches the original. */
  lemma MatchesUnderNormalize(s: string, m: Pattern.Span)
    ensures Pattern.Matches(Normalize(s), m) <==> Pattern.Matches(s, m)
  {
    NormalizeIndistinguishable(s);
    if Pattern.Matches(s, m) { MatchesTransfer(s, Normalize(s), m); }
    if Pattern.Matches(Normalize(s), m) { MatchesTransfer(Normalize(s), s, m); }
  }

  /** Hence `re.search` reports the same match in both. */
  lemma SearchUnderNormalize(s: string)
    ensures Pattern.Search(Normalize(s)) == Pattern.Search(s)
  {
    var n := Normalize(s);
    forall m ensures Pattern.Matches(n, m) <==> Pattern.Matches(s, m) {
      MatchesUnderNormalize(s, m);
    }
    if Pattern.Search(s).Some? {
      Pattern.LeftmostFirstIsUnique(s, Pattern.Search(s).value, Pattern.Search(n).value);
    }
  }

  /** A line feed and a space are both whitespace, so flattening keeps every character's
      whitespace status. */
  lemma NormalizeKeepsSpaces(s: string)
    ensures forall k :: 0 <= k < |s| ==> (IsSpace(Normalize(s)[k]) <==> IsSpace(s[k]))
  {
  }

  /** `strip()` sees a line feed and a space alike. */
  lemma StripNormalize(s: string)
    ensures Strip(Normalize(s)) == Normalize(Strip(s))
  {
    var n := Normalize(s);
    NormalizeKeepsSpaces(s);
    var a, b := SpacesEnd(s, 0), SpacesStart(s, |s|);
    SpacesEndUnique(n, 0, a);
    if a < |s| {
      SpacesStartUnique(n, |s|, b);
      NormalizeSlice(s, a, b);
    }
  }

  /** Flattening leaves a run of digits as it is. */
  lemma NormalizeKeepsDigits(text: string, a: nat, b: nat)
    requires a <= b <= |text| && forall k :: a <= k < b ==> IsDigit(text[k])
    ensures Normalize(text)[a..b] == text[a..b]
  {
    var n := Normalize(text);
    forall k | a <= k < b ensures n[k] == text[k] {
      assert IsDigit(text[k]);
    }
  }

  /** The item read off a match of the flattened text is the flattened item. */
  lemma ItemOfNormalize(text: string, m: Pattern.Span)
    requires Pattern.Matches(text, m) && Pattern.Matches(Normalize(text), m)
    ensures var item := Backend.ItemOf(text, m);
      Backend.ItemOf(Normalize(text), m) == Backend.Item(Normalize(item.name), item.amount)
  {
    var g := text[m.start..m.nameEnd];
    NormalizeSlice(text, m.start, m.nameEnd);
    StripNormalize(g);
    NormalizeKeepsDigits(text, m.countStart, m.end);
  }

  /** Flattening the OCR text before sending it does not change what the collector gets out of
      it: no match, a count over the digit limit, or an item with the same amount, whose name
      differs only by line feeds turned into spaces. */
  lemma NormalizeKeepsExtraction(text: string)
    ensures Backend.Extract(Normalize(text)).NoMatch? <==> Backend.Extract(text).NoMatch?
    ensures Backend.Extract(Normalize(text)).DigitLimitExceeded? <==> Backend.Extract(text).DigitLimitExceeded?
    ensures Backend.Extract(text).Found? ==>
      var item := Backend.Extract(text).item;
      Backend.Extract(Normalize(text)) == Backend.Found(Backend.Item(Normalize(item.name), item.amount))
  {
    SearchUnderNormalize(text);
    if Pattern.Search(text).Some? {
      ItemOfNormalize(text, Pattern.Search(text).value);
    }
  }

  /** What `analyzeFrames` does with one OCR result: the flattened text to send, or nothing. */
  function Classify(text: string): (event: Option<string>)
    ensures event.Some? <==> IsRelevant(text)
    ensures event.Some? ==> event.value == Normalize(text)
    ensures event.Some? ==>
      |event.value| == |text| && '\n' !in event.value && IsRelevant(event.value)
  {
    NormalizeKeepsRelevance(text);
    if IsRelevant(text) then Some(Normalize(text)) else None
  }

  /** The number of entries the log keeps. */
  const LogCapacity: nat := 10

  /** A log entry is `response.data.received`. `None` stands for JavaScript's `undefined`: the
      collector's "ignored" and "duplicate" replies have no `received` field, and the log takes
      the missing value all the same. */
  type LogEntry = Option<string>

  function Min(a: int, b: int): int
  {
    if a < b then a else b
  }

  /** `prev => [entry, ...prev].slice(0, 10)`: the new entry first, then the previous entries in
      their order, as many of them as fit in ten. */
  function PushLog(log: seq<LogEntry>, entry: LogEntry): (r: seq<LogEntry>)
    ensures |r| == Min(|log| + 1, LogCapacity) && 0 < |r| <= LogCapacity
    ensures r[0] == entry
    ensures r[1..] == log[..Min(|log|, LogCapacity - 1)]
  {
    var grown := [entry] + log;
    assert grown[1..] == log;
    grown[..Min(|grown|, LogCapacity)]
  }

  /** `entries` in reverse order. */
  function Reversed(entries: seq<LogEntry>): (r: seq<LogEntry>)
    ensures |r| == |entries|
    ensures forall k :: 0 <= k < |r| ==> r[k] == entries[|entries| - 1 - k]
  {
    if entries == [] then [] else Reversed(entries[1..]) + [entries[0]]
  }

  /** The log after the replies `entries` arrive one after the other. */
  function PushAll(log: seq<LogEntry>, entries: seq<LogEntry>): seq<LogEntry>
    decreases |entries|
  {
    if entries == [] then log else PushAll(PushLog(log, entries[0]), entries[1..])
  }

  /** After any number of replies the log holds the newest ones, newest first, at most ten. */
  lemma {:induction false} PushAllKeepsNewest(log: seq<LogEntry>, entries: seq<LogEntry>)
    requires |log| <= LogCapacity
    decreases |entries|
    ensures PushAll(log, entries) == (Reversed(entries) + log)[..Min(|entries| + |log|, LogCapacity)]
  {
    if entries == [] {
      assert Reversed(entries) + log == log;
    } else {
      var e, rest := entries[0], entries[1..];
      var next := PushLog(log, e);
      PushAllKeepsNewest(next, rest);
      var m := Min(|rest| + |next|, LogCapacity);
      assert Reversed(entries) == Reversed(rest) + [e];
      assert next == ([e] + log)[..|next|];
      // Cutting `[e] + log` short before appending does not change the first `m` entries.
      assert (Reversed(rest) + next)[..m] == (Reversed(rest) + ([e] + log))[..m] by {
        forall k | 0 <= k < m
          ensures (Reversed(rest) + next)[k] == (Reversed(rest) + ([e] + log))[k]
        {
          if k >= |rest| { assert next[k - |rest|] == ([e] + log)[k - |rest|]; }
        }
      }
      assert Reversed(rest) + ([e] + log) == Reversed(entries) + log;
      assert m == Min(|entries| + |log|, LogCapacity);
    }
  }

  /** Eleven replies into an empty log: the tenth, ninth, ..., second remain, the eleventh
      first; the first is gone unless the same value came again later. */
  lemma ElevenReplies(entries: seq<LogEntry>)
    requires |entries| == 11
    ensures PushAll([], entries) == Reversed(entries[1..])
    ensures PushAll([], entries)[0] == entries[10]
    ensures entries[0] !in entries[1..] ==> entries[0] !in PushAll([], entries)
  {
    PushAllKeepsNewest([], entries);
    assert Reversed(entries) == Reversed(entries[1..]) + [entries[0]];
    assert (Reversed(entries) + [])[..10] == Reversed(entries[1..]);
    var log := PushAll([], entries);
    if entries[0] in log {
      var k :| 0 <= k < |log| && log[k] == entries[0];
      assert entries[1..][9 - k] == entries[0];
    }
  }

  /** How `axios.post` came back: rejected, which is the `catch` branch (no response at all, or
      an HTTP error status such as the 500 of a collector that raised), or with the collector's
      JSON reply. */
  datatype Response = PostFailed | Delivered(reply: Backend.Reply)

  /** `response.data.received`: present only in a success reply. */
  function ReceivedField(reply: Backend.Reply): (entry: LogEntry)
    ensures entry.Some? <==> reply.Success?
    ensures reply.Success? ==> entry == Some(reply.received)
  {
    match reply
    case Success(received, _) => Some(received)
    case _ => None
  }

  /** The log after `sendToServer` finishes: a failed send leaves it as it was. */
  function LogAfterSend(log: seq<LogEntry>, response: Response): (r: seq<LogEntry>)
    ensures response.PostFailed? ==> r == log
    ensures response.Delivered? ==>
      && 0 < |r| <= LogCapacity
      && r[0] == ReceivedField(response.reply)
      && r[1..] == log[..Min(|log|, LogCapacity - 1)]
  {
    match response
    case PostFailed => log
    case Delivered(reply) => PushLog(log, ReceivedField(reply))
  }

  /** What became of one request on the network. */
  datatype Transport =
    | RequestLost   // never reached the collector
    | ReplyLost     // processed by the collector, but its reply never came back
    | RoundTrip     // processed, and the reply came back

  /** The response `axios.post` sees for a reply that came back: a server error rejects. */
  function ResponseTo(reply: Backend.Reply): (response: Response)
    ensures response.PostFailed? <==> reply.ServerError?
    ensures response.Delivered? ==> response.reply == reply
  {
    if reply.ServerError? then PostFailed else Delivered(reply)
  }

  /** One analysis cycle from the OCR text on: filter, send, let the collector decide at its
      clock `now`, and record the reply. Gives the new log and the collector's new state; the
      log changes only for a relevant text whose reply came back, and the collector's state
      only for a relevant text that reached it, which it then updates as `CollectStep` does. */
  function Cycle(log: seq<LogEntry>, server: Backend.Capture, ocrText: string, now: int,
                 transport: Transport): (r: (seq<LogEntry>, Backend.Capture))
    ensures r.0 != log ==> IsRelevant(ocrText) && transport.RoundTrip?
    ensures r.1 != server ==> IsRelevant(ocrText) && !transport.RequestLost?
    ensures IsRelevant(ocrText) && !transport.RequestLost? ==>
      r.1 == Backend.CollectStep(server, Normalize(ocrText), now).1
  {
    match Classify(ocrText)
    case None => (log, server)
    case Some(sent) =>
      if transport.RequestLost? then (log, server)
      else
        var step := Backend.CollectStep(server, sent, now);
        var response := if transport.ReplyLost? then PostFailed else ResponseTo(step.0);
        (LogAfterSend(log, response), step.1)
  }

  /** A cycle changes the log only when the text was relevant, the reply came back and it was
      not a server error; the entry it adds is present exactly when the collector accepted the
      text, and then reading it again gives the item the collector extracted from what was
      sent. */
  lemma CycleOutcome(log: seq<LogEntry>, server: Backend.Capture, ocrText: string, now: int,
                     transport: Transport)
    requires |log| <= LogCapacity
    ensures var next, reply := Cycle(log, server, ocrText, now, transport).0,
                               Backend.CollectStep(server, Normalize(ocrText), now).0;
      && |next| <= LogCapacity
      && (!IsRelevant(ocrText) || !transport.RoundTrip? || reply.ServerError? ==> next == log)
      && (IsRelevant(ocrText) && transport.RoundTrip? && !reply.ServerError? ==>
            && next == PushLog(log, ReceivedField(reply))
            && (next[0].Some? <==> reply.Success?)
            && (next[0].Some? ==>
                  Backend.Extract(next[0].value) == Backend.Extract(Normalize(ocrText))))
  {
    var next := Cycle(log, server, ocrText, now, transport).0;
    if IsRelevant(ocrText) && transport.RoundTrip? {
      var sent := Normalize(ocrText);
      assert Classify(ocrText) == Some(sent);
      var reply := Backend.CollectStep(server, sent, now).0;
      if !reply.ServerError? {
        assert next == PushLog(log, ReceivedField(reply));
        if reply.Success? {
          Backend.SuccessReplyRoundTrip(server, sent, now);
        }
      }
    }
  }
}
