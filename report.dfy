/**
  The per-frame status text of social_distance.py: the HUD string
  (lines 101-103) and the log line (line 112), with the decimal rendering of
  counts that Python's f-strings use. Each string comes with a parser, and
  the round trips show that a line carries exactly its counts.
 */
module Report {
  import opened Optional
  import Proximity

  predicate IsDigit(c: char) {
    '0' <= c <= '9'
  }

  predicate AllDigits(s: string) {
    forall i | 0 <= i < |s| :: IsDigit(s[i])
  }

  function DigitChar(d: nat): (c: char)
    requires d < 10
    ensures IsDigit(c) && c as int - '0' as int == d
  {
    ('0' as int + d) as char
  }

  /** `str(n)` for a non-negative integer: decimal digits with no leading zero. */
  function NatToString(n: nat): (s: string)
    ensures |s| >= 1 && AllDigits(s)
    ensures s[0] == '0' ==> n == 0 && s == "0"
  {
    if n < 10 then [DigitChar(n)] else NatToString(n / 10) + [DigitChar(n % 10)]
  }

  /** The number a run of decimal digits denotes. */
  function DigitsValue(s: string): nat
    requires AllDigits(s)
  {
    if s == [] then 0
    else 10 * DigitsValue(s[..|s| - 1]) + (s[|s| - 1] as int - '0' as int)
  }

  lemma {:induction false} NatToStringValue(n: nat)
    ensures DigitsValue(NatToString(n)) == n
  {
    if n >= 10 {
      NatToStringValue(n / 10);
      var s := NatToString(n);
      assert s[..|s| - 1] == NatToString(n / 10);
    }
  }

  /** The length of the run of digits at the start of `s`. */
  function DigitSpan(s: string): (k: nat)
    ensures k <= |s|
    ensures AllDigits(s[..k])
    ensures k < |s| ==> !IsDigit(s[k])
  {
    if s == [] || !IsDigit(s[0]) then 0
    else
      var k := 1 + DigitSpan(s[1..]);
      assert s[..k] == [s[0]] + s[1..][..k - 1];
      k
  }

  lemma {:induction false} DigitSpanOf(ds: string, rest: string)
    requires AllDigits(ds)
    requires rest == [] || !IsDigit(rest[0])
    ensures DigitSpan(ds + rest) == |ds|
  {
    if ds != [] {
      assert (ds + rest)[1..] == ds[1..] + rest;
      DigitSpanOf(ds[1..], rest);
    } else {
      assert ds + rest == rest;
    }
  }

  /** Reads a non-empty run of digits from the front of `s`: its value and what follows it. */
  function ReadNat(s: string): Option<(nat, string)>
  {
    var k := DigitSpan(s);
    if k == 0 then None else Some((DigitsValue(s[..k]), s[k..]))
  }

  lemma ReadNatOf(n: nat, rest: string)
    requires rest == [] || !IsDigit(rest[0])
    ensures ReadNat(NatToString(n) + rest) == Some((n, rest))
  {
    var ds := NatToString(n);
    DigitSpanOf(ds, rest);
    assert (ds + rest)[..|ds|] == ds;
    assert (ds + rest)[|ds|..] == rest;
    NatToStringValue(n);
  }

  /** What is left of `s` after the literal `p`, if `s` starts with `p`. */
  function StripPrefix(p: string, s: string): (r: Option<string>)
    ensures r.Some? <==> |p| <= |s| && s[..|p|] == p
    ensures r.Some? ==> p + r.value == s
  {
    if |p| <= |s| && s[..|p|] == p then
      assert p + s[|p|..] == s;
      Some(s[|p|..])
    else
      None
  }

  lemma StripPrefixOf(p: string, s: string)
    ensures StripPrefix(p, p + s) == Some(s)
  {
    assert (p + s)[..|p|] == p;
    assert (p + s)[|p|..] == s;
  }

  /** Reads the literal `tag` and then a number from the front of `s`: the number and what follows it. */
  function ReadField(tag: string, s: string): Option<(nat, string)>
  {
    match StripPrefix(tag, s)
    case None => None
    case Some(t) => ReadNat(t)
  }

  lemma ReadFieldOf(tag: string, n: nat, rest: string)
    requires rest == [] || !IsDigit(rest[0])
    ensures ReadField(tag, tag + NatToString(n) + rest) == Some((n, rest))
  {
    assert tag + NatToString(n) + rest == tag + (NatToString(n) + rest);
    StripPrefixOf(tag, NatToString(n) + rest);
    ReadNatOf(n, rest);
  }

  const AlertPrefix := "ALERT!  "

  /** The HUD text before the alert marker is considered: counts and threshold. */
  function HudBody(people: nat, viol: nat): (s: string)
    ensures |s| > 0 && s[0] == 'p'
  {
    "people=" + NatToString(people) + "  viol=" + NatToString(viol)
      + "  thr=" + NatToString(Proximity.ThresholdPx) + "px"
  }

  /** The HUD string of social_distance.py:101-103. */
  function Hud(people: nat, viol: nat): (s: string)
    ensures (|AlertPrefix| <= |s| && s[..|AlertPrefix|] == AlertPrefix) <==> viol > 0
  {
    var body := HudBody(people, viol);
    if viol > 0 then
      assert (AlertPrefix + body)[..|AlertPrefix|] == AlertPrefix;
      AlertPrefix + body
    else
      assert |AlertPrefix| <= |body| ==> body[..|AlertPrefix|][0] == 'p';
      body
  }

  /** The HUD for two people and one violation. */
  lemma AlertHud(people: nat, viol: nat)
    requires people == 2 && viol == 1
    ensures Hud(people, viol) == "ALERT!  people=2  viol=1  thr=180px"
  {
    HudShape(people, viol);
    AlertHudBody(people, viol);
  }

  /** The HUD is its body, after the alert marker when there is a violation. */
  lemma HudShape(people: nat, viol: nat)
    ensures Hud(people, viol) == if viol > 0 then AlertPrefix + HudBody(people, viol) else HudBody(people, viol)
  {
  }

  lemma AlertHudBody(people: nat, viol: nat)
    requires people == 2 && viol == 1
    ensures HudBody(people, viol) == "people=2  viol=1  thr=180px"
  {
    ThresholdText();
    assert NatToString(people) == "2" && NatToString(viol) == "1";
  }

  /** The threshold as the HUD prints it. */
  lemma ThresholdText()
    ensures NatToString(Proximity.ThresholdPx) == "180"
  {
    assert NatToString(18) == "18";
  }

  /** The fields a HUD string shows. */
  datatype HudFields = HudFields(alert: bool, people: nat, viol: nat, threshold: nat)

  /** Reads the counts and the threshold back from the HUD text after any alert marker. */
  function ParseHudBody(alert: bool, body: string): Option<HudFields>
  {
    match ReadField("people=", body)
    case None => None
    case Some((people, t1)) =>
      match ReadField("  viol=", t1)
      case None => None
      case Some((viol, t2)) =>
        match ReadField("  thr=", t2)
        case None => None
        case Some((thr, t3)) =>
          if t3 == "px" then Some(HudFields(alert, people, viol, thr)) else None
  }

  /** Reads the fields back from a HUD string. */
  function ParseHud(s: string): Option<HudFields>
  {
    match StripPrefix(AlertPrefix, s)
    case Some(body) => ParseHudBody(true, body)
    case None => ParseHudBody(false, s)
  }

  lemma HudBodyRoundTrip(alert: bool, people: nat, viol: nat)
    ensures ParseHudBody(alert, HudBody(people, viol)) == Some(HudFields(alert, people, viol, Proximity.ThresholdPx))
  {
    var thr := Proximity.ThresholdPx;
    var t3 := "px";
    var t2 := "  thr=" + NatToString(thr) + t3;
    var t1 := "  viol=" + NatToString(viol) + t2;
    assert HudBody(people, viol) == "people=" + NatToString(people) + t1;
    ReadFieldOf("people=", people, t1);
    ReadFieldOf("  viol=", viol, t2);
    ReadFieldOf("  thr=", thr, t3);
  }

  /**
    The HUD shows the alert marker exactly when there is a violation, the
    people and violation counts, and the 180-pixel threshold.
   */
  lemma HudRoundTrip(people: nat, viol: nat)
    ensures ParseHud(Hud(people, viol)) == Some(HudFields(viol > 0, people, viol, Proximity.ThresholdPx))
  {
    var body := HudBody(people, viol);
    HudBodyRoundTrip(viol > 0, people, viol);
    if viol > 0 {
      StripPrefixOf(AlertPrefix, body);
    } else {
      assert StripPrefix(AlertPrefix, body).None?;
    }
  }

  /** The log line of social_distance.py:112 for timestamp `ts`. */
  function LogLine(ts: string, people: nat, viol: nat): (line: string)
    ensures |line| > 0 && line[|line| - 1] == '\n'
  {
    ts + LogTail(people, viol)
  }

  /** What follows the timestamp on a log line. */
  function LogTail(people: nat, viol: nat): string
  {
    ",people=" + NatToString(people) + ",viol=" + NatToString(viol) + "\n"
  }

  /** A log line for a timestamp without a line break is one line: its only line break ends it. */
  lemma LogLineSingleLine(ts: string, people: nat, viol: nat)
    requires '\n' !in ts
    ensures forall i | 0 <= i < |LogLine(ts, people, viol)| - 1 :: LogLine(ts, people, viol)[i] != '\n'
  {
    var pn, vn := NatToString(people), NatToString(viol);
    var line := LogLine(ts, people, viol);
    assert line == ts + ",people=" + pn + ",viol=" + vn + "\n";
    assert forall i | 0 <= i < |pn| :: pn[i] != '\n';
    assert forall i | 0 <= i < |vn| :: vn[i] != '\n';
  }

  /** The fields a log line records. */
  datatype LogFields = LogFields(ts: string, people: nat, viol: nat)

  /** The length of the longest prefix of `s` that does not contain `c`. */
  function SpanUntil(s: string, c: char): (k: nat)
    ensures k <= |s|
    ensures c !in s[..k]
    ensures k < |s| ==> s[k] == c
  {
    if s == [] || s[0] == c then 0
    else
      var k := 1 + SpanUntil(s[1..], c);
      assert s[..k] == [s[0]] + s[1..][..k - 1];
      k
  }

  lemma {:induction false} SpanUntilOf(t: string, c: char, rest: string)
    requires c !in t
    requires rest != [] && rest[0] == c
    ensures SpanUntil(t + rest, c) == |t|
  {
    if t != [] {
      assert (t + rest)[1..] == t[1..] + rest;
      assert t[0] in t;
      assert forall x | x in t[1..] :: x in t;
      SpanUntilOf(t[1..], c, rest);
    } else {
      assert t + rest == rest;
    }
  }

  /** Reads the counts back from what follows the timestamp. */
  function ParseLogTail(ts: string, tail: string): Option<LogFields>
  {
    match ReadField(",people=", tail)
    case None => None
    case Some((people, t1)) =>
      match ReadField(",viol=", t1)
      case None => None
      case Some((viol, t2)) =>
        if t2 == "\n" then Some(LogFields(ts, people, viol)) else None
  }

  /** Reads the fields back from a log line: the timestamp runs to the first comma. */
  function ParseLogLine(line: string): Option<LogFields>
  {
    var k := SpanUntil(line, ',');
    ParseLogTail(line[..k], line[k..])
  }

  lemma LogTailRoundTrip(ts: string, people: nat, viol: nat)
    ensures ParseLogTail(ts, LogTail(people, viol)) == Some(LogFields(ts, people, viol))
  {
    var t2 := "\n";
    var t1 := ",viol=" + NatToString(viol) + t2;
    assert LogTail(people, viol) == ",people=" + NatToString(people) + t1;
    ReadFieldOf(",people=", people, t1);
    ReadFieldOf(",viol=", viol, t2);
  }

  /**
    A log line records its timestamp and both counts, for any timestamp
    without a comma (the `%Y-%m-%d %H:%M:%S` format has none).
   */
  lemma LogLineRoundTrip(ts: string, people: nat, viol: nat)
    requires ',' !in ts
    ensures ParseLogLine(LogLine(ts, people, viol)) == Some(LogFields(ts, people, viol))
  {
    var tail := LogTail(people, viol);
    var line := LogLine(ts, people, viol);
    assert tail[0] == ',';
    SpanUntilOf(ts, ',', tail);
    assert line[..|ts|] == ts && line[|ts|..] == tail;
    LogTailRoundTrip(ts, people, viol);
  }
}
