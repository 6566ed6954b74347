/**
 * The payload extractor: turns a notification body made of embeds into one
 * job record, or into nothing. Every sub-extraction falls back to a sentinel;
 * a labelled field whose value is missing makes the whole parse fail, which is
 * what the `try`/`catch` around the extractor turns a TypeError into.
 */
module Webhook {
  import opened Wrappers
  import opened JsStrings
  import opened Patterns

  /** A `{name, value}` pair of an embed; either side may be missing. */
  datatype Field = Field(name: Option<JsString>, value: Option<JsString>)

  /** One embed; a missing `fields` array is the empty sequence. */
  datatype Embed = Embed(title: Option<JsString>, description: Option<JsString>, fields: seq<Field>)

  /** The notification body; `embeds` may be missing. */
  datatype Body = Body(embeds: Option<seq<Embed>>)

  /** An extracted job; `time` is the clock reading taken when it was parsed. */
  datatype Job = Job(jobId: Option<JsString>, name: JsString, players: JsString, value: JsString, time: int)

  /** JavaScript truthiness of an optional string: present and non-empty. */
  predicate Truthy(s: Option<JsString>) {
    s.Some? && |s.value| > 0
  }

  // ----- labels -----

  const JobIdWord: JsString := Lit("Job ID")
  /** U+1F310 GLOBE WITH MERIDIANS as UTF-16. */
  const GlobeGlyph: JsString := [0xD83C, 0xDF10]
  const ValueWord: JsString := Lit("Valor")
  /** U+1F4B0 MONEY BAG as UTF-16. */
  const MoneyGlyph: JsString := [0xD83D, 0xDCB0]
  const PlayersWord: JsString := Lit("Players")
  /** U+1F465 BUSTS IN SILHOUETTE as UTF-16. */
  const BustsGlyph: JsString := [0xD83D, 0xDC65]

  predicate Labelled(name: Option<JsString>, word: JsString, glyph: JsString) {
    Truthy(name) && (Includes(name.value, word) || Includes(name.value, glyph))
  }

  predicate IsJobIdField(f: Field) { Labelled(f.name, JobIdWord, GlobeGlyph) }
  predicate IsValueField(f: Field) { Labelled(f.name, ValueWord, MoneyGlyph) }
  predicate IsPlayersField(f: Field) { Labelled(f.name, PlayersWord, BustsGlyph) }

  /** Calling `.match` or `.replace` on the missing value of a labelled field throws. */
  predicate FieldThrows(f: Field) {
    (IsJobIdField(f) || IsValueField(f) || IsPlayersField(f)) && f.value.None?
  }

  // ----- title -----

  /**
   * The code units of the class `[🔥💎⭐🚨☯️]`. Without the `u` flag the class
   * holds UTF-16 code units: both surrogates of each astral emoji (the high
   * surrogate D83D is shared), the star, the yin yang and the variation selector.
   */
  predicate IsTitleGlyph(c: CodeUnit) {
    c == 0xD83D || c == 0xDD25 || c == 0xDC8E || c == 0x2B50 || c == 0xDEA8 || c == 0x262F || c == 0xFE0F
  }

  /** `s.replace(/[🔥💎⭐🚨☯️]/g, '')`. */
  function StripGlyphs(s: JsString): (r: JsString)
    ensures forall c :: c in r <==> c in s && !IsTitleGlyph(c)
    ensures (forall k | 0 <= k < |s| :: !IsTitleGlyph(s[k])) ==> r == s
  {
    if |s| == 0 then []
    else if IsTitleGlyph(s[0]) then StripGlyphs(s[1..])
    else
      assert s == [s[0]] + s[1..];
      [s[0]] + StripGlyphs(s[1..])
  }

  /** Glyph removal works piece by piece, so the remaining code units keep their order. */
  lemma {:induction false} StripGlyphsAppend(a: JsString, b: JsString)
    ensures StripGlyphs(a + b) == StripGlyphs(a) + StripGlyphs(b)
    decreases |a|
  {
    if |a| == 0 {
      assert a + b == b;
    } else {
      assert (a + b)[1..] == a[1..] + b;
      StripGlyphsAppend(a[1..], b);
    }
  }

  /** What the title gives: a name and a value, each possibly the sentinel. */
  datatype TitleParts = TitleParts(name: JsString, value: JsString)

  /** The title with its glyphs removed and trimmed, the text the title regexes see. */
  function CleanTitle(title: JsString): JsString {
    Trim(StripGlyphs(title))
  }

  /**
   * The title step: no title gives the sentinels; otherwise the leftmost
   * `$<rate>` of the cleaned title is its value and is cut out of the name.
   */
  function ParseTitle(title: Option<JsString>): (t: TitleParts)
    ensures !Truthy(title) ==> t == TitleParts(Brainrot, Zero)
    ensures t.value == Zero || IsRateText(t.value)
  {
    if !Truthy(title) then TitleParts(Brainrot, Zero)
    else
      var clean := CleanTitle(title.value);
      match FindDollarRate(clean)
      case Some((p, e)) =>
        DollarRateCapture(clean, p, e);
        TitleParts(Trim(clean[..p] + clean[e..]), clean[p + 1..e])
      case None => TitleParts(clean, Zero)
  }

  /** The rate after the `$` of a `$<rate>` span is a rate text. */
  lemma DollarRateCapture(s: JsString, p: nat, e: nat)
    requires p < e <= |s| && IsDollarRateText(s[p..e])
    ensures IsRateText(s[p + 1..e])
  {
    assert s[p..e][1..] == s[p + 1..e];
  }

  /** A name from a title holds no glyph and starts and ends with no whitespace. */
  lemma TitleNameClean(title: Option<JsString>)
    requires Truthy(title)
    ensures forall c :: c in ParseTitle(title).name ==> !IsTitleGlyph(c)
    ensures var n := ParseTitle(title).name;
            n == [] || (!IsJsWhitespace(n[0]) && !IsJsWhitespace(n[|n| - 1]))
  {
    var clean := CleanTitle(title.value);
    match FindDollarRate(clean)
    case Some((p, e)) =>
      var joined := clean[..p] + clean[e..];
      assert forall c | c in joined :: c in clean;
    case None =>
  }

  /** Without a `$<rate>` in the cleaned title the name is the cleaned title and the value the sentinel. */
  lemma TitleWithoutRate(title: Option<JsString>)
    requires Truthy(title)
    ensures var t := ParseTitle(title);
            t.value == Zero <==> forall p, e | 0 <= p <= e <= |CleanTitle(title.value)| ::
                                   !IsDollarRateText(CleanTitle(title.value)[p..e])
    ensures ParseTitle(title).value == Zero ==> ParseTitle(title).name == CleanTitle(title.value)
  {
    var clean := CleanTitle(title.value);
    match FindDollarRate(clean)
    case Some((p, e)) =>
      assert |clean[p + 1..e]| >= 3;
    case None =>
  }

  /**
   * `$` then `value` stand in `clean` at `p`, no `$<rate>` starts before `p`,
   * and `name` is what is left around them, trimmed.
   */
  ghost predicate CutAt(clean: JsString, p: nat, value: JsString, name: JsString) {
    var e := p + 1 + |value|;
    && e <= |clean|
    && clean[p] == Dollar
    && clean[p + 1..e] == value
    && name == Trim(clean[..p] + clean[e..])
    && forall p', e' | 0 <= p' < p && p' <= e' <= |clean| :: !IsDollarRateText(clean[p'..e'])
  }

  /**
   * With a `$<rate>` in the cleaned title, the value is the leftmost one without
   * its `$`, and the name is what is left around it, trimmed.
   */
  lemma TitleWithRate(title: Option<JsString>) returns (p: nat)
    requires Truthy(title)
    requires ParseTitle(title).value != Zero
    ensures IsRateText(ParseTitle(title).value)
    ensures CutAt(CleanTitle(title.value), p, ParseTitle(title).value, ParseTitle(title).name)
  {
    var e;
    p, e := TitleMatch(title);
    CutFromMatch(CleanTitle(title.value), p, e);
  }

  /** The leftmost `$<rate>` match, cut out, satisfies `CutAt`. */
  lemma CutFromMatch(clean: JsString, p: nat, e: nat)
    requires FindDollarRate(clean) == Some((p, e))
    ensures CutAt(clean, p, clean[p + 1..e], Trim(clean[..p] + clean[e..]))
  {
    MatchStartsWithDollar(clean, p, e);
    NothingBeforeMatch(clean, p, e);
  }

  lemma MatchStartsWithDollar(clean: JsString, p: nat, e: nat)
    requires FindDollarRate(clean) == Some((p, e))
    ensures clean[p] == Dollar
  {
    assert IsDollarRateText(clean[p..e]);
    assert clean[p..e][0] == clean[p];
  }

  lemma NothingBeforeMatch(clean: JsString, p: nat, e: nat)
    requires FindDollarRate(clean) == Some((p, e))
    ensures forall p', e' | 0 <= p' < p && p' <= e' <= |clean| :: !IsDollarRateText(clean[p'..e'])
  {
  }

  /** The title step took the `Some` branch of the `$<rate>` search. */
  lemma TitleMatch(title: Option<JsString>) returns (p: nat, e: nat)
    requires Truthy(title)
    requires ParseTitle(title).value != Zero
    ensures FindDollarRate(CleanTitle(title.value)) == Some((p, e))
    ensures p < e <= |CleanTitle(title.value)|
    ensures var clean := CleanTitle(title.value);
            ParseTitle(title) == TitleParts(Trim(clean[..p] + clean[e..]), clean[p + 1..e])
  {
    var r := FindDollarRate(CleanTitle(title.value));
    p, e := r.value.0, r.value.1;
  }

  // ----- fields -----

  /** The capture of `([0-9.]+[KMBT]?\/s)` (flag `i`). */
  function RateCapture(s: JsString): (r: Option<JsString>)
    ensures r.Some? ==> IsRateText(r.value)
    ensures r.None? <==> forall p, e | 0 <= p <= e <= |s| :: !IsRateText(s[p..e])
  {
    match FindRate(s)
    case Some((p, e)) => Some(s[p..e])
    case None => None
  }

  /** A value field's text with `**` pairs and `$` signs removed, then trimmed. */
  function CleanValue(v: JsString): JsString {
    Trim(Without(RemoveDoubleStars(v), Dollar))
  }

  /** The job id a field supplies, if it is a Job ID field whose value holds one. */
  function JobIdHit(f: Field): Option<JsString> {
    if IsJobIdField(f) && f.value.Some? then FindJobId(f.value.value) else None
  }

  /** The value a field supplies, if it is a value field whose cleaned text holds a rate. */
  function ValueHit(f: Field): Option<JsString> {
    if IsValueField(f) && f.value.Some? then RateCapture(CleanValue(f.value.value)) else None
  }

  /** The `<current>/<max>` a field supplies, rebuilt from the two groups of `(\d+)\/(\d+)`. */
  function PlayersHit(f: Field): Option<JsString> {
    if IsPlayersField(f) && f.value.Some? then
      match FindPlayers(f.value.value)
      case Some((a, b)) => Some(a + [Slash] + b)
      case None => None
    else None
  }

  /**
   * `r` is what a variable holds after the loop over `fs` assigned it the hit of
   * every field that had one: the hit of the last such field, or `init`.
   */
  ghost predicate LastHit<T>(fs: seq<Field>, hit: Field -> Option<T>, init: Option<T>, r: Option<T>) {
    if exists k | 0 <= k < |fs| :: hit(fs[k]).Some? then
      exists k | 0 <= k < |fs| :: && hit(fs[k]).Some?
                                  && r == hit(fs[k])
                                  && forall k' | k < k' < |fs| :: hit(fs[k']).None?
    else r == init
  }

  lemma LastHitCons<T>(fs: seq<Field>, hit: Field -> Option<T>, init: Option<T>, r: Option<T>)
    requires |fs| > 0
    ensures LastHit(fs[1..], hit, if hit(fs[0]).Some? then hit(fs[0]) else init, r) ==> LastHit(fs, hit, init, r)
  {
    var mid := if hit(fs[0]).Some? then hit(fs[0]) else init;
    if LastHit(fs[1..], hit, mid, r) {
      if exists k | 0 <= k < |fs| - 1 :: hit(fs[1..][k]).Some? {
        var k :| 0 <= k < |fs| - 1 && hit(fs[1..][k]).Some? && r == hit(fs[1..][k])
                 && forall k' | k < k' < |fs| - 1 :: hit(fs[1..][k']).None?;
        assert fs[1..][k] == fs[k + 1];
        forall k' | k + 1 < k' < |fs| ensures hit(fs[k']).None? {
          assert fs[1..][k' - 1] == fs[k'];
        }
      } else {
        forall k' | 0 < k' < |fs| ensures hit(fs[k']).None? {
          assert fs[1..][k' - 1] == fs[k'];
        }
        if hit(fs[0]).Some? {
          assert r == hit(fs[0]);
        }
      }
    }
  }

  /** A variable that starts unset ends set iff some field had a hit. */
  lemma LastHitFromNothing<T>(fs: seq<Field>, hit: Field -> Option<T>, r: Option<T>)
    ensures LastHit(fs, hit, None, r) ==> (r.Some? <==> exists k | 0 <= k < |fs| :: hit(fs[k]).Some?)
  {
  }

  /** The three variables the field loop updates. */
  datatype Scan = Scan(jobId: Option<JsString>, value: JsString, players: JsString)

  /** One iteration of the field loop: a throw, or the updated variables. */
  function ScanField(f: Field, acc: Scan): Option<Scan> {
    if FieldThrows(f) then None
    else Some(Scan(
      if JobIdHit(f).Some? then JobIdHit(f) else acc.jobId,
      ValueHit(f).GetOr(acc.value),
      PlayersHit(f).GetOr(acc.players)))
  }

  /** The field loop: fails iff some field throws, and otherwise the last hit of each kind wins. */
  function ScanFields(fs: seq<Field>, acc: Scan): (r: Option<Scan>)
    ensures r.None? <==> exists k | 0 <= k < |fs| :: FieldThrows(fs[k])
    ensures r.Some? ==> LastHit(fs, JobIdHit, acc.jobId, r.value.jobId)
    ensures r.Some? ==> LastHit(fs, ValueHit, Some(acc.value), Some(r.value.value))
    ensures r.Some? ==> LastHit(fs, PlayersHit, Some(acc.players), Some(r.value.players))
    decreases |fs|
  {
    if |fs| == 0 then Some(acc)
    else
      match ScanField(fs[0], acc)
      case None => None
      case Some(next) =>
        var r := ScanFields(fs[1..], next);
        assert (exists k | 0 <= k < |fs| :: FieldThrows(fs[k])) <==> (exists k | 0 <= k < |fs| - 1 :: FieldThrows(fs[1..][k])) by {
          forall k | 0 < k < |fs| ensures fs[k] == fs[1..][k - 1] {}
        }
        LastHitCons(fs, JobIdHit, acc.jobId, r.GetOr(next).jobId);
        LastHitCons(fs, ValueHit, Some(acc.value), Some(r.GetOr(next).value));
        LastHitCons(fs, PlayersHit, Some(acc.players), Some(r.GetOr(next).players));
        r
  }

  // ----- one embed -----

  /** What one embed gives: the parse throws, the embed is skipped, or a job is built. */
  datatype Extracted = Threw | Rejected | Accepted(job: Job)

  /** The description's magnitude: the capture of `\$?([0-9.]+[KMBT]?\/s)` (flag `i`), else the sentinel. */
  function DescriptionValue(description: JsString): JsString {
    OptDollarRateCapture(description).GetOr(Zero)
  }

  /** The body of the loop over embeds, for one embed, with `now` as the clock reading. */
  function ExtractEmbed(e: Embed, now: int): (r: Extracted)
    ensures r.Threw? <==> exists k | 0 <= k < |e.fields| :: FieldThrows(e.fields[k])
    ensures r.Accepted? <==> && !r.Threw?
                             && ((exists k | 0 <= k < |e.fields| :: JobIdHit(e.fields[k]).Some?)
                                 || ParseTitle(e.title).name != Brainrot)
    ensures r.Accepted? ==> r.job.time == now && r.job.name == ParseTitle(e.title).name
  {
    var t := ParseTitle(e.title);
    match ScanFields(e.fields, Scan(None, t.value, NotAvailable))
    case None => Threw
    case Some(sc) =>
      LastHitFromNothing(e.fields, JobIdHit, sc.jobId);
      var value := if sc.value == Zero && Truthy(e.description) then DescriptionValue(e.description.value) else sc.value;
      if sc.jobId.Some? || t.name != Brainrot then Accepted(Job(sc.jobId, t.name, sc.players, value, now))
      else Rejected
  }

  // ----- the whole payload -----

  /** `body.embeds || []`. */
  function EmbedsOf(body: Body): seq<Embed> {
    body.embeds.GetOr([])
  }

  /** Embed `i` is accepted and every embed before it was skipped without a throw. */
  ghost predicate FirstAccepted(es: seq<Embed>, i: int, now: int) {
    && 0 <= i < |es|
    && ExtractEmbed(es[i], now).Accepted?
    && forall k | 0 <= k < i :: ExtractEmbed(es[k], now).Rejected?
  }

  /** The loop over embeds: the first embed that is not skipped decides. */
  function ParseEmbeds(es: seq<Embed>, now: int): (r: Option<Job>)
    ensures r.Some? <==> exists i :: FirstAccepted(es, i, now)
    ensures forall i | FirstAccepted(es, i, now) :: r == Some(ExtractEmbed(es[i], now).job)
    decreases |es|
  {
    if |es| == 0 then None
    else
      FirstAcceptedShift(es, now);
      match ExtractEmbed(es[0], now)
      case Threw => None
      case Accepted(job) =>
        assert FirstAccepted(es, 0, now);
        Some(job)
      case Rejected =>
        FirstAcceptedSkip(es, now);
        ParseEmbeds(es[1..], now)
  }

  /** After a skipped embed, the first accepted embed is the first accepted one of the rest. */
  lemma FirstAcceptedSkip(es: seq<Embed>, now: int)
    requires |es| > 0 && ExtractEmbed(es[0], now).Rejected?
    ensures (exists i :: FirstAccepted(es, i, now)) <==> (exists i :: FirstAccepted(es[1..], i, now))
    ensures forall i | FirstAccepted(es[1..], i, now) :: FirstAccepted(es, i + 1, now) && es[1..][i] == es[i + 1]
  {
    FirstAcceptedShift(es, now);
    if exists i :: FirstAccepted(es, i, now) {
      var i :| FirstAccepted(es, i, now);
      assert FirstAccepted(es[1..], i - 1, now);
    }
    if exists i :: FirstAccepted(es[1..], i, now) {
      var i :| FirstAccepted(es[1..], i, now);
      assert FirstAccepted(es, i + 1, now);
    }
  }

  lemma FirstAcceptedShift(es: seq<Embed>, now: int)
    requires |es| > 0
    ensures ExtractEmbed(es[0], now).Rejected? ==>
              forall i :: FirstAccepted(es, i, now) <==> i > 0 && FirstAccepted(es[1..], i - 1, now)
    ensures !ExtractEmbed(es[0], now).Rejected? ==>
              forall i :: FirstAccepted(es, i, now) <==> i == 0 && ExtractEmbed(es[0], now).Accepted?
  {
    forall i | 0 < i < |es| ensures es[1..][i - 1] == es[i] {}
    forall i | 0 < i < |es| && FirstAccepted(es, i, now) ensures ExtractEmbed(es[0], now).Rejected? {}
    if ExtractEmbed(es[0], now).Rejected? {
      forall i | 0 < i < |es| && FirstAccepted(es[1..], i - 1, now) ensures FirstAccepted(es, i, now) {
        forall k | 0 < k < i ensures ExtractEmbed(es[k], now).Rejected? {
          assert es[k] == es[1..][k - 1];
        }
      }
    }
  }

  /**
   * `parseWebhook`: no embeds gives nothing; otherwise the job of the first
   * embed that is accepted, provided every embed before it was skipped without
   * a throw; nothing if no embed qualifies.
   */
  function ParseWebhook(body: Body, now: int): (r: Option<Job>)
    ensures |EmbedsOf(body)| == 0 ==> r.None?
    ensures r.Some? <==> exists i :: FirstAccepted(EmbedsOf(body), i, now)
    ensures forall i | FirstAccepted(EmbedsOf(body), i, now) :: r == Some(ExtractEmbed(EmbedsOf(body)[i], now).job)
  {
    var embeds := EmbedsOf(body);
    if |embeds| == 0 then None
    else ParseEmbeds(embeds, now)
  }

  // ----- properties of an extracted job -----

  /** A rate text is made of digits, dots, a suffix letter, `/` and `s`: never `$`. */
  lemma RateTextHasNoDollar(x: JsString)
    ensures IsRateText(x) ==> Dollar !in x
  {
    if IsRateText(x) {
      var n := if IsRateSuffix(x[|x| - 3]) then |x| - 3 else |x| - 2;
      forall k | 0 <= k < |x| ensures x[k] != Dollar {
        if k < n {
          assert x[..n][k] == x[k];
        }
      }
    }
  }

  lemma PlayersHitShape(f: Field)
    ensures PlayersHit(f).Some? ==> IsPlayersText(PlayersHit(f).value)
  {
    if PlayersHit(f).Some? {
      var (a, b) := FindPlayers(f.value.value).value;
      var x := a + [Slash] + b;
      assert x[..|a|] == a;
      assert x[|a| + 1..] == b;
      assert x[|a|] == Slash;
    }
  }

  /** The loop variables after the field loop, for an embed whose parse does not throw. */
  function ScanOf(e: Embed): Option<Scan> {
    ScanFields(e.fields, Scan(None, ParseTitle(e.title).value, NotAvailable))
  }

  /** An accepted job carries the loop variables, and the description only fills in a missing value. */
  lemma AcceptedFromScan(e: Embed, now: int)
    requires ExtractEmbed(e, now).Accepted?
    ensures ScanOf(e).Some?
    ensures var j := ExtractEmbed(e, now).job;
            var sc := ScanOf(e).value;
            && j.jobId == sc.jobId
            && j.players == sc.players
            && j.value == (if sc.value == Zero && Truthy(e.description) then DescriptionValue(e.description.value) else sc.value)
  {
  }

  /**
   * The job id of an accepted job is the one the last Job ID field with an id
   * supplied: a 36-code-unit `[a-f0-9-]` window of that field's value, the
   * leftmost one there. A job with no such field has no id.
   */
  lemma ExtractedJobId(e: Embed, now: int)
    requires ExtractEmbed(e, now).Accepted?
    ensures LastHit(e.fields, JobIdHit, None, ExtractEmbed(e, now).job.jobId)
    ensures var id := ExtractEmbed(e, now).job.jobId;
            id.Some? ==> && IsUuidText(id.value)
                         && exists k | 0 <= k < |e.fields| ::
                              && IsJobIdField(e.fields[k])
                              && e.fields[k].value.Some?
                              && FindJobId(e.fields[k].value.value) == id
  {
    AcceptedFromScan(e, now);
    var id := ExtractEmbed(e, now).job.jobId;
    if id.Some? {
      assert exists k | 0 <= k < |e.fields| :: JobIdHit(e.fields[k]).Some?;
      var k :| 0 <= k < |e.fields| && JobIdHit(e.fields[k]).Some? && id == JobIdHit(e.fields[k]);
      assert IsJobIdField(e.fields[k]) && e.fields[k].value.Some?;
    }
  }

  /** The players of an accepted job: the last Players field with a `<digits>/<digits>`, else `N/A`. */
  lemma ExtractedPlayers(e: Embed, now: int)
    requires ExtractEmbed(e, now).Accepted?
    ensures LastHit(e.fields, PlayersHit, Some(NotAvailable), Some(ExtractEmbed(e, now).job.players))
    ensures var p := ExtractEmbed(e, now).job.players;
            p == NotAvailable || IsPlayersText(p)
  {
    AcceptedFromScan(e, now);
    var p := ExtractEmbed(e, now).job.players;
    if p != NotAvailable {
      var k :| 0 <= k < |e.fields| && PlayersHit(e.fields[k]).Some? && Some(p) == PlayersHit(e.fields[k]);
      PlayersHitShape(e.fields[k]);
    }
  }

  /**
   * Where the value of an accepted job comes from: a value field overrides the
   * title, and the description is read only when neither gave a value.
   */
  lemma ValuePrecedence(e: Embed, now: int)
    requires ExtractEmbed(e, now).Accepted?
    ensures var v := ExtractEmbed(e, now).job.value;
            var hits := exists k | 0 <= k < |e.fields| :: ValueHit(e.fields[k]).Some?;
            var fromTitle := ParseTitle(e.title).value;
            && (hits ==> LastHit(e.fields, ValueHit, None, Some(v)))
            && (!hits && fromTitle != Zero ==> v == fromTitle)
            && (!hits && fromTitle == Zero && !Truthy(e.description) ==> v == Zero)
            && (!hits && fromTitle == Zero && Truthy(e.description) ==> v == DescriptionValue(e.description.value))
  {
    AcceptedFromScan(e, now);
    ScannedValueShape(e);
    var sc := ScanOf(e).value;
    var fromTitle := ParseTitle(e.title).value;
    assert LastHit(e.fields, ValueHit, Some(fromTitle), Some(sc.value));
    if exists k | 0 <= k < |e.fields| :: ValueHit(e.fields[k]).Some? {
      assert IsRateText(sc.value);
      assert sc.value != Zero;
    } else {
      assert sc.value == fromTitle;
    }
  }

  /** The description's value is the leftmost rate text in it, with no `$`, or the sentinel. */
  lemma DescriptionValueSpec(d: JsString)
    ensures DescriptionValue(d) == Zero || IsRateText(DescriptionValue(d))
    ensures FindRate(d).Some? ==> DescriptionValue(d) == d[FindRate(d).value.0..FindRate(d).value.1]
    ensures FindRate(d).None? ==> DescriptionValue(d) == Zero
  {
    OptDollarCaptureIsRate(d);
  }

  /** The value of an accepted job is the sentinel `0` or a rate text, and holds no `$`. */
  lemma ExtractedValue(e: Embed, now: int)
    requires ExtractEmbed(e, now).Accepted?
    ensures var v := ExtractEmbed(e, now).job.value;
            (v == Zero || IsRateText(v)) && Dollar !in v
  {
    AcceptedFromScan(e, now);
    ScannedValueShape(e);
    if Truthy(e.description) {
      DescriptionValueSpec(e.description.value);
    }
    RateTextHasNoDollar(ExtractEmbed(e, now).job.value);
  }

  /** After the field loop the value is the sentinel or a rate text, and a rate text when a field supplied it. */
  lemma ScannedValueShape(e: Embed)
    requires ScanOf(e).Some?
    ensures ScanOf(e).value.value == Zero || IsRateText(ScanOf(e).value.value)
    ensures (exists k | 0 <= k < |e.fields| :: ValueHit(e.fields[k]).Some?) ==> IsRateText(ScanOf(e).value.value)
  {
    var sc := ScanOf(e).value;
    if exists k | 0 <= k < |e.fields| :: ValueHit(e.fields[k]).Some? {
      var k :| 0 <= k < |e.fields| && ValueHit(e.fields[k]).Some? && Some(sc.value) == ValueHit(e.fields[k]);
    }
  }

  /** What every job the extractor accepts looks like. */
  ghost predicate WellFormedJob(j: Job) {
    && (j.jobId.None? || IsUuidText(j.jobId.value))
    && (j.players == NotAvailable || IsPlayersText(j.players))
    && (j.value == Zero || IsRateText(j.value))
    && Dollar !in j.value
    && (j.jobId.Some? || j.name != Brainrot)
  }

  /** Every job `parseWebhook` returns is well formed and stamped with the clock reading. */
  lemma ParsedJobWellFormed(body: Body, now: int)
    ensures var r := ParseWebhook(body, now);
            r.Some? ==> WellFormedJob(r.value) && r.value.time == now
  {
    var es := EmbedsOf(body);
    var r := ParseWebhook(body, now);
    if r.Some? {
      var i :| FirstAccepted(es, i, now);
      ExtractedJobId(es[i], now);
      ExtractedPlayers(es[i], now);
      ExtractedValue(es[i], now);
      AcceptedFromScan(es[i], now);
    }
  }
}
