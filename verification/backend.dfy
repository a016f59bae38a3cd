/** The collector endpoint `POST /api/collect` (backend/main.py): it pulls an item name and a
    count out of the submitted OCR text, rejects a repeat of the last accepted item name within
    two seconds, and otherwise records the item and echoes it back as `"<name> x<count>"`. */
module Backend {
  import opened Wrappers
  import opened Text
  import Pattern

  /** What one submission is reduced to: `item_name` and `amount`. */
  datatype Item = Item(name: string, amount: nat)

  /** A string made only of Hangul syllables and whitespace. */
  predicate AllNameChars(s: string)
  {
    forall k :: 0 <= k < |s| ==> IsNameChar(s[k])
  }

  /** The names `Extract` can produce: no surrounding whitespace, only `[가-힣\s]` inside. */
  predicate IsItemName(name: string)
  {
    IsTrimmed(name) && AllNameChars(name)
  }

  /** Group 2 of a match is a run of ASCII digits. */
  lemma CountIsDigits(s: string, m: Pattern.Span)
    requires Pattern.Matches(s, m)
    ensures AllDigits(s[m.countStart..m.end])
  {
    var g := s[m.countStart..m.end];
    forall k | 0 <= k < |g| ensures IsDigit(g[k]) {
      assert g[k] == s[m.countStart + k];
    }
  }

  /** Group 1 of a match, stripped, is an item name. */
  lemma StrippedNameIsItemName(s: string, m: Pattern.Span)
    requires Pattern.Matches(s, m)
    ensures IsItemName(Strip(s[m.start..m.nameEnd]))
  {
    var g := s[m.start..m.nameEnd];
    assert AllNameChars(g) by {
      forall k | 0 <= k < |g| ensures IsNameChar(g[k]) {
        assert g[k] == s[m.start + k];
      }
    }
    StripKeepsNameChars(g);
  }

  lemma StripKeepsNameChars(g: string)
    requires AllNameChars(g)
    ensures AllNameChars(Strip(g))
  {
    var name := Strip(g);
    var a := SpacesEnd(g, 0);
    forall k | 0 <= k < |name| ensures IsNameChar(name[k]) {
      assert name[k] == g[a + k];
    }
  }

  /** `item_name` and `amount` read off a match: group 1 stripped of surrounding whitespace,
      group 2 read as a decimal number, whose numeral is no longer than group 2. */
  function ItemOf(s: string, m: Pattern.Span): (item: Item)
    requires Pattern.Matches(s, m)
    ensures IsItemName(item.name)
    ensures |FormatNat(item.amount)| <= m.end - m.countStart
  {
    CountIsDigits(s, m);
    StrippedNameIsItemName(s, m);
    DecimalValueFits(s[m.countStart..m.end]);
    Item(Strip(s[m.start..m.nameEnd]), DecimalValue(s[m.countStart..m.end]))
  }

  /** The items `collect_data` can accept: a well-formed name, and an amount whose numeral is
      within the digit limit, so that formatting it does not raise. */
  predicate IsItem(item: Item)
  {
    IsItemName(item.name) && |FormatNat(item.amount)| <= MaxStrDigits
  }

  /** What `collect_data` gets out of the text before the dedup check. */
  datatype Extraction =
    | NoMatch             // `re.search` found nothing
    | DigitLimitExceeded  // `int(match.group(2))` raised ValueError: more than 4300 digits
    | Found(item: Item)

  /** Lines 37-43 of `collect_data`: the search, then `strip()` and `int()` on the match the
      search reports. */
  function Extract(rawText: string): (r: Extraction)
    ensures r.Found? ==> IsItem(r.item)
  {
    match Pattern.Search(rawText)
    case None => NoMatch
    case Some(m) =>
      if m.end - m.countStart > MaxStrDigits then DigitLimitExceeded else Found(ItemOf(rawText, m))
  }

  /** `Extract` finds nothing exactly when no substring of the text matches the pattern, and
      otherwise reads the leftmost-first match: `int()` fails on a count of more than 4300
      digits, and any other match yields its item. */
  lemma ExtractMeaning(rawText: string)
    ensures Extract(rawText).NoMatch? <==> forall m :: !Pattern.Matches(rawText, m)
    ensures forall m :: Pattern.IsLeftmostFirst(rawText, m) ==>
      Extract(rawText) ==
        if m.end - m.countStart > MaxStrDigits then DigitLimitExceeded else Found(ItemOf(rawText, m))
  {
    if Pattern.Search(rawText).Some? {
      var m := Pattern.Search(rawText).value;
      forall m' | Pattern.IsLeftmostFirst(rawText, m') ensures m' == m {
        Pattern.LeftmostFirstIsUnique(rawText, m, m');
      }
    }
  }

  /** `int()` fails exactly when the match the search reports has a count of more than 4300
      digits. */
  lemma DigitLimitMeaning(rawText: string)
    ensures Extract(rawText).DigitLimitExceeded? <==>
      exists m :: Pattern.IsLeftmostFirst(rawText, m) && m.end - m.countStart > MaxStrDigits
  {
    ExtractMeaning(rawText);
    if Pattern.Search(rawText).Some? {
      assert Pattern.IsLeftmostFirst(rawText, Pattern.Search(rawText).value);
    }
  }

  /** The reply's `received` text, `f"{item_name} x{amount}"`: the name, then " x", then the
      amount's numeral, a run of digits without leading zero. */
  function Received(item: Item): (r: string)
    ensures var n := |item.name|;
      && |r| == n + 2 + |FormatNat(item.amount)| && r[..n] == item.name && r[n] == ' ' && r[n + 1] == 'x'
      && (forall k :: n + 2 <= k < |r| ==> IsDigit(r[k]))
      && (r[n + 2] != '0' || |r| == n + 3)
    ensures r[|item.name| + 2..] == FormatNat(item.amount)
  {
    var s := item.name + " x" + FormatNat(item.amount);
    assert forall k :: |item.name| + 2 <= k < |s| ==> s[k] == FormatNat(item.amount)[k - |item.name| - 2];
    s
  }

  /** In an echoed text the pattern matches the whole string: group 1 is the name and the
      space after it, group 2 the numeral. */
  lemma SearchReceived(item: Item)
    requires IsItemName(item.name)
    ensures var s, n := Received(item), |item.name|;
      Pattern.Search(s) == Some(Pattern.Span(0, n + 1, n + 2, |s|))
  {
    var s, n := Received(item), |item.name|;
    var digits := FormatNat(item.amount);
    assert s == item.name + [' ', 'x'] + digits;
    assert forall k :: 0 <= k < n + 1 ==> IsNameChar(s[k]) by {
      forall k | 0 <= k < n + 1 ensures IsNameChar(s[k]) {
        if k < n { assert s[k] == item.name[k]; } else { assert s[k] == ' '; }
      }
    }
    assert s[n + 1] == 'x';
    assert Pattern.NameRunEnd(s, 0) == n + 1;
    assert forall k :: n + 2 <= k < |s| ==> IsDigit(s[k]) by {
      forall k | n + 2 <= k < |s| ensures IsDigit(s[k]) { assert s[k] == digits[k - n - 2]; }
    }
    assert Pattern.DigitRunEnd(s, n + 2) == |s|;
    assert Pattern.CountStart(s, n + 1) == n + 2;
  }

  /** The item read off that whole-string match is the item the text was made from. */
  lemma ItemOfReceived(item: Item)
    requires IsItemName(item.name)
    ensures var s, n := Received(item), |item.name|;
      var m := Pattern.Span(0, n + 1, n + 2, |s|);
      Pattern.Matches(s, m) && ItemOf(s, m) == item
  {
    var s, n := Received(item), |item.name|;
    var m := Pattern.Span(0, n + 1, n + 2, |s|);
    SearchReceived(item);
    assert s[m.start..m.nameEnd] == [] + item.name + " ";
    assert s[m.countStart..m.end] == FormatNat(item.amount);
    StripPadded([], item.name, " ");
    DecimalValueOfFormat(item.amount);
  }

  /** The echoed text parses back to the item it was made from. */
  lemma ExtractReceived(item: Item)
    requires IsItem(item)
    ensures Extract(Received(item)) == Found(item)
  {
    SearchReceived(item);
    ItemOfReceived(item);
  }

  /** The dedup window: `time_diff < 2.0` seconds, with time in microseconds. */
  const DedupWindow: int := 2_000_000

  /** `datetime.min` (0001-01-01 00:00:00) in microseconds relative to the Unix epoch. */
  const MinTime: int := -62_135_596_800_000_000

  /** `last_captured`: the last accepted item name and the time it was accepted. */
  datatype Capture = Capture(text: string, time: int)

  /** `last_captured` at start-up. */
  const InitialCapture := Capture("", MinTime)

  /** The replies of `collect_data`; `Success` carries `received` and the request time.
      `ServerError` is the HTTP 500 FastAPI sends when the handler raises. */
  datatype Reply = Ignored | Duplicate | Success(received: string, time: int) | ServerError

  /** `(current_time - last_captured["time"]).total_seconds()` for a difference of `d`
      microseconds. */
  function TotalSeconds(d: int): real
  {
    d as real / 1_000_000.0
  }

  /** The same name as the last accepted one, less than two seconds after it. The amount plays
      no part. Comparing microseconds with `DedupWindow` is comparing `total_seconds()` with
      `2.0`. */
  predicate IsDuplicate(last: Capture, name: string, now: int)
    ensures IsDuplicate(last, name, now) <==> name == last.text && TotalSeconds(now - last.time) < 2.0
  {
    name == last.text && now - last.time < DedupWindow
  }

  /** One call of `collect_data` at time `now`: its reply and the new `last_captured`. The
      state changes exactly when the reply is a success, and then to the time of the call. */
  function CollectStep(last: Capture, rawText: string, now: int): (r: (Reply, Capture))
    ensures r.0.Success? <==> r.1 != last
    ensures r.0.Success? ==> r.0.time == now && r.1.time == now
  {
    match Extract(rawText)
    case NoMatch => (Ignored, last)
    case DigitLimitExceeded => (ServerError, last)
    case Found(item) =>
      if IsDuplicate(last, item.name, now) then (Duplicate, last)
      else (Success(Received(item), now), Capture(item.name, now))
  }

  /** The outcomes of a submission and what each does to `last_captured`. */
  lemma CollectStepOutcomes(last: Capture, rawText: string, now: int)
    ensures var reply, next := CollectStep(last, rawText, now).0, CollectStep(last, rawText, now).1;
      && (reply.Ignored? <==> forall m :: !Pattern.Matches(rawText, m))
      && (reply.ServerError? <==>
            exists m :: Pattern.IsLeftmostFirst(rawText, m) && m.end - m.countStart > MaxStrDigits)
      && (reply.Duplicate? <==>
            Extract(rawText).Found? && Extract(rawText).item.name == last.text && now - last.time < DedupWindow)
      && (!reply.Success? ==> next == last)
      && (reply.Success? ==>
            var item := Extract(rawText).item;
            next == Capture(item.name, now) && reply.received == Received(item) && reply.time == now)
  {
    var e := Extract(rawText);
    assert e.NoMatch? <==> forall m :: !Pattern.Matches(rawText, m) by {
      ExtractMeaning(rawText);
    }
    assert e.DigitLimitExceeded? <==>
      exists m :: Pattern.IsLeftmostFirst(rawText, m) && m.end - m.countStart > MaxStrDigits by {
      DigitLimitMeaning(rawText);
    }
  }

  /** The echoed `received` text of a success reply, submitted again, yields the same item. */
  lemma SuccessReplyRoundTrip(last: Capture, rawText: string, now: int)
    requires CollectStep(last, rawText, now).0.Success?
    ensures Extract(CollectStep(last, rawText, now).0.received) == Extract(rawText)
  {
    var item := Extract(rawText).item;
    assert CollectStep(last, rawText, now).0.received == Received(item);
    ExtractReceived(item);
  }

  /** Two submissions with the same item name are treated alike whatever their amounts: the
      dedup check looks at the name only. */
  lemma DedupIgnoresAmount(last: Capture, raw1: string, raw2: string, now: int)
    requires Extract(raw1).Found? && Extract(raw2).Found?
    requires Extract(raw1).item.name == Extract(raw2).item.name
    ensures CollectStep(last, raw1, now).0.Duplicate? <==> CollectStep(last, raw2, now).0.Duplicate?
    ensures CollectStep(last, raw1, now).1 == CollectStep(last, raw2, now).1
  {
  }

  /** From the start-up state every submission the collector extracts an item from (a match
      whose count has at most 4300 digits) is accepted, as long as the clock reads at least
      two seconds after `datetime.min`. */
  lemma InitialAcceptsEveryMatch(rawText: string, now: int)
    requires Extract(rawText).Found?
    requires now - MinTime >= DedupWindow
    ensures CollectStep(InitialCapture, rawText, now).0.Success?
  {
  }

  /** A submission as the collector sees it: the text and the server clock when it arrives. */
  datatype Request = Request(rawText: string, now: int)

  /** The replies to a series of submissions and the final `last_captured`. */
  function Replay(last: Capture, requests: seq<Request>): (Capture, seq<Reply>)
    decreases |requests|
  {
    if requests == [] then (last, [])
    else
      var step := CollectStep(last, requests[0].rawText, requests[0].now);
      var rest := Replay(step.1, requests[1..]);
      (rest.0, [step.0] + rest.1)
  }

  /** A submission of the last accepted name arriving inside the window. */
  predicate IsRepeat(last: Capture, request: Request)
  {
    Extract(request.rawText).Found? && IsDuplicate(last, Extract(request.rawText).item.name, request.now)
  }

  /** A repeat is rejected and changes nothing. */
  lemma RepeatStep(last: Capture, request: Request)
    requires IsRepeat(last, request)
    ensures CollectStep(last, request.rawText, request.now) == (Duplicate, last)
  {
  }

  /** Submissions that each leave `last_captured` as it is and are rejected as duplicates. */
  lemma {:induction false} RejectedRun(last: Capture, requests: seq<Request>)
    requires forall k :: 0 <= k < |requests| ==>
      CollectStep(last, requests[k].rawText, requests[k].now) == (Duplicate, last)
    ensures Replay(last, requests) == (last, seq(|requests|, _ => Duplicate))
  {
    if requests != [] {
      var tail := requests[1..];
      assert forall k :: 0 <= k < |tail| ==> tail[k] == requests[k + 1];
      RejectedRun(last, tail);
      assert [Duplicate] + seq(|tail|, _ => Duplicate) == seq(|requests|, _ => Duplicate);
    } else {
      assert seq(|requests|, _ => Duplicate) == [];
    }
  }

  /** Duplicates do not extend the window: submissions of the last accepted name that arrive
      within two seconds of its acceptance are all rejected and `last_captured` keeps the
      original time, however many of them there are. */
  lemma DuplicatesKeepWindow(last: Capture, requests: seq<Request>)
    requires forall k :: 0 <= k < |requests| ==> IsRepeat(last, requests[k])
    ensures Replay(last, requests) == (last, seq(|requests|, _ => Duplicate))
  {
    forall k | 0 <= k < |requests|
      ensures CollectStep(last, requests[k].rawText, requests[k].now) == (Duplicate, last)
    {
      RepeatStep(last, requests[k]);
    }
    RejectedRun(last, requests);
  }

  /** The in-memory `last_captured` of the running server, updated by `collect_data`. */
  class Collector {
    var lastText: string
    var lastTime: int

    function Last(): Capture
      reads this
    {
      Capture(lastText, lastTime)
    }

    constructor ()
      ensures Last() == InitialCapture
    {
      lastText := "";
      lastTime := MinTime;
    }

    /** `collect_data` for the request text `rawText`, with `datetime.now()` passed in as
        `now` (microseconds). A rejected submission leaves the state as it was. */
    method Collect(rawText: string, now: int) returns (reply: Reply)
      modifies this
      ensures (reply, Last()) == CollectStep(old(Last()), rawText, now)
      ensures !reply.Success? ==> lastText == old(lastText) && lastTime == old(lastTime)
      ensures reply.Success? ==> lastText == Extract(rawText).item.name && lastTime == now
    {
      var found := Extract(rawText);
      if found.NoMatch? {
        return Ignored;
      }
      if found.DigitLimitExceeded? {
        return ServerError;
      }
      var item := found.item;
      if item.name == lastText && now - lastTime < DedupWindow {
        return Duplicate;
      }
      lastText, lastTime := item.name, now;
      reply := Success(Received(item), now);
    }
  }
}
