/** Alert deduplication keys (packages/core/src/dedupe.ts): six length-prefixed components joined
    with bars, and a decoder that shows nothing is lost in them. */
module Dedupe {
  import opened Text
  import opened Wrappers

  datatype AlertType = RestrictedEligible | StageStarting | WatchedLive | WatchedNearingSellout | SourceFailure

  datatype AlertKeyParts = AlertKeyParts(deploymentId: JsString, walletId: JsString, projectId: JsString,
                                         stageId: JsString, alertType: AlertType, thresholdMinutes: int)

  function AlertTypeName(t: AlertType): JsString {
    match t
    case RestrictedEligible => Lit("restricted_eligible")
    case StageStarting => Lit("stage_starting")
    case WatchedLive => Lit("watched_live")
    case WatchedNearingSellout => Lit("watched_nearing_sellout")
    case SourceFailure => Lit("source_failure")
  }

  /** `String(n)` of an integer. */
  function IntToString(n: int): JsString {
    if n < 0 then [MINUS] + ToDecimal(-n) else ToDecimal(n)
  }

  function Components(parts: AlertKeyParts): seq<JsString> {
    [parts.deploymentId, parts.walletId, parts.projectId, parts.stageId,
     AlertTypeName(parts.alertType), IntToString(parts.thresholdMinutes)]
  }

  function Prefixed(c: JsString): JsString {
    ToDecimal(|c|) + [COLON] + c
  }

  /** The components mapped to their prefixed form and joined with "|". */
  function Joined(components: seq<JsString>): JsString {
    if components == [] then []
    else if |components| == 1 then Prefixed(components[0])
    else Prefixed(components[0]) + [BAR] + Joined(components[1..])
  }

  function AlertDedupeKey(parts: AlertKeyParts): JsString {
    Joined(Components(parts))
  }

  lemma JoinedCons(c: JsString, rest: seq<JsString>)
    requires rest != []
    ensures Joined([c] + rest) == ToDecimal(|c|) + [58] + c + [124] + Joined(rest)
  {
    assert ([c] + rest)[1..] == rest;
  }

  /** The key as it is stored: each component behind its length and a colon, bars between them, in this
      order and with these names. */
  lemma KeyIsWrittenAs(parts: AlertKeyParts)
    ensures var name := Lit(match parts.alertType
                            case RestrictedEligible => "restricted_eligible"
                            case StageStarting => "stage_starting"
                            case WatchedLive => "watched_live"
                            case WatchedNearingSellout => "watched_nearing_sellout"
                            case SourceFailure => "source_failure");
            var minutes := IntToString(parts.thresholdMinutes);
            AlertDedupeKey(parts) ==
            ToDecimal(|parts.deploymentId|) + [58] + parts.deploymentId + [124] +
            (ToDecimal(|parts.walletId|) + [58] + parts.walletId + [124] +
             (ToDecimal(|parts.projectId|) + [58] + parts.projectId + [124] +
              (ToDecimal(|parts.stageId|) + [58] + parts.stageId + [124] +
               (ToDecimal(|name|) + [58] + name + [124] + (ToDecimal(|minutes|) + [58] + minutes)))))
  {
    hide Joined, ToDecimal;
    var cs := Components(parts);
    assert cs == [cs[0]] + cs[1..] && cs[1..] == [cs[1]] + cs[2..] && cs[2..] == [cs[2]] + cs[3..];
    assert cs[3..] == [cs[3]] + cs[4..] && cs[4..] == [cs[4]] + cs[5..];
    JoinedCons(cs[0], cs[1..]);
    JoinedCons(cs[1], cs[2..]);
    JoinedCons(cs[2], cs[3..]);
    JoinedCons(cs[3], cs[4..]);
    JoinedCons(cs[4], cs[5..]);
    JoinedOne(cs[5]);
    assert cs[5..] == [cs[5]];
  }

  lemma JoinedOne(c: JsString)
    ensures Joined([c]) == ToDecimal(|c|) + [58] + c
  {
  }

  // ----- The decoder -----

  /** The first component of a key and what follows it. */
  function TakeComponent(key: JsString): Option<(JsString, JsString)> {
    var k := LeadingDigits(key);
    if k < |key| && key[k] == COLON then
      var size := FromDecimal(key[..k]);
      if k + 1 + size <= |key| then Some((key[k + 1..k + 1 + size], key[k + 1 + size..])) else None
    else None
  }

  function Split(key: JsString, n: nat): Option<seq<JsString>> {
    match TakeComponent(key)
    case None => None
    case Some((c, rest)) =>
      if n <= 1 then (if rest == [] then Some([c]) else None)
      else if rest == [] || rest[0] != BAR then None
      else match Split(rest[1..], n - 1)
           case None => None
           case Some(cs) => Some([c] + cs)
  }

  function ReadAlertType(s: JsString): Option<AlertType> {
    if s == AlertTypeName(RestrictedEligible) then Some(RestrictedEligible)
    else if s == AlertTypeName(StageStarting) then Some(StageStarting)
    else if s == AlertTypeName(WatchedLive) then Some(WatchedLive)
    else if s == AlertTypeName(WatchedNearingSellout) then Some(WatchedNearingSellout)
    else if s == AlertTypeName(SourceFailure) then Some(SourceFailure)
    else None
  }

  function ReadInt(s: JsString): Option<int> {
    if s != [] && s[0] == MINUS && AllDigits(s[1..]) then
      var magnitude: int := FromDecimal(s[1..]);
      Some(-magnitude)
    else if AllDigits(s) then
      var magnitude: int := FromDecimal(s);
      Some(magnitude)
    else None
  }

  function Decode(key: JsString): Option<AlertKeyParts> {
    match Split(key, 6)
    case None => None
    case Some(cs) =>
      if |cs| != 6 then None
      else match (ReadAlertType(cs[4]), ReadInt(cs[5]))
           case (Some(t), Some(n)) => Some(AlertKeyParts(cs[0], cs[1], cs[2], cs[3], t, n))
           case _ => None
  }

  // ----- Unique decodability -----

  lemma TakeFromPrefixed(c: JsString, rest: JsString)
    ensures TakeComponent(Prefixed(c) + rest) == Some((c, rest))
  {
    var digits := ToDecimal(|c|);
    var key := Prefixed(c) + rest;
    assert key == digits + [COLON] + (c + rest);
    DigitsThenStop(digits, [COLON] + (c + rest));
    assert key == digits + ([COLON] + (c + rest));
    DecimalRoundTrip(|c|);
    assert key[..|digits|] == digits;
    assert key[|digits| + 1..|digits| + 1 + |c|] == c;
    assert key[|digits| + 1 + |c|..] == rest;
  }

  lemma {:induction false} SplitInvertsJoin(components: seq<JsString>)
    requires components != []
    ensures Split(Joined(components), |components|) == Some(components)
    decreases |components|
  {
    hide TakeComponent, Prefixed;
    var c := components[0];
    if |components| == 1 {
      TakeFromPrefixed(c, []);
      assert Joined(components) == Prefixed(c) + [];
      assert components == [c];
    } else {
      var tail := Joined(components[1..]);
      SplitInvertsJoin(components[1..]);
      TakeFromPrefixed(c, [BAR] + tail);
      assert Joined(components) == Prefixed(c) + ([BAR] + tail);
      assert ([BAR] + tail)[1..] == tail;
      assert components == [c] + components[1..];
    }
  }

  lemma AlertTypeReadsBack(t: AlertType)
    ensures ReadAlertType(AlertTypeName(t)) == Some(t)
  {
    assert AlertTypeName(WatchedLive)[0] == 119;
    assert AlertTypeName(StageStarting)[1] == 116;
    assert AlertTypeName(SourceFailure)[1] == 111;
  }

  lemma IntReadsBack(n: int)
    ensures ReadInt(IntToString(n)) == Some(n)
  {
    if n < 0 {
      DecimalRoundTrip(-n);
      assert IntToString(n)[1..] == ToDecimal(-n);
    } else {
      DecimalRoundTrip(n);
    }
  }

  /** All six parts can be read back from the key, whatever the strings contain. */
  lemma KeyDecodes(parts: AlertKeyParts)
    ensures Decode(AlertDedupeKey(parts)) == Some(parts)
  {
    SplitInvertsJoin(Components(parts));
    AlertTypeReadsBack(parts.alertType);
    IntReadsBack(parts.thresholdMinutes);
  }

  /** Two alerts share a key only if they are the same alert. */
  lemma KeyIsInjective(a: AlertKeyParts, b: AlertKeyParts)
    requires AlertDedupeKey(a) == AlertDedupeKey(b)
    ensures a == b
  {
    KeyDecodes(a);
    KeyDecodes(b);
  }
}
