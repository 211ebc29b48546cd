/**
 * The Discord status viewer's page source (`DiscordStatusSource`) and the
 * emoji split of `serverinfo`.
 *
 * The parsed `summary.json` and `history.json` documents form one immutable
 * bundle; `FormatPage` says what each of the six pages shows, and
 * `RenderPage` builds the same page field by field, as `format_page` does.
 */
module Info {
  import opened Wrappers
  import opened Text

  // ---------------------------------------------------------------------------
  // The bundle

  /** A component of `summary.json`; its description may be `null`. */
  datatype Component = Component(name: string, status: string, description: Option<string>)
  datatype Incident = Incident(name: string, message: string, impact: string)
  datatype OverallStatus = OverallStatus(description: string, indicator: string)
  datatype Summary = Summary(status: OverallStatus, components: seq<Component>, incidents: seq<Incident>)
  /** One month of `history.json`. */
  datatype Month = Month(name: string, year: nat, incidents: seq<Incident>)
  datatype History = History(months: seq<Month>)
  /** What the source is constructed with: `summary` and `response`. */
  datatype StatusSource = StatusSource(summary: Summary, response: History)

  /** An embed field; `add_field` defaults to `inline=True`. */
  datatype Field = Field(name: string, value: string, inline: bool)
  /** The embed a page renders to (its colour is not modelled). */
  datatype DisplayUnit = DisplayUnit(title: string, description: Option<string>, fields: seq<Field>, footer: string)

  /** `ListPageSource(range(6), per_page=1)` has six pages. */
  const PAGE_COUNT: nat := 6

  /** `DiscordStatusSource.important_components`. */
  const IMPORTANT_COMPONENTS: seq<string> :=
    ["API", "Media Proxy", "Push Notifications", "Search", "Voice", "Third-party", "CloudFlare"]

  const GENERAL_TITLE: string := "Discord Status\nCurrent Status for Discord"
  const INCIDENTS_TITLE: string := "Discord Status\nCurrent Incidents"
  const OVERVIEW_TITLE: string := "Discord Status\nComponent Overview"
  const NO_ISSUES: string := "There are no issues with discord as of yet."
  const NO_MONTH_INCIDENTS: string := "There are no incidents this month."
  const NO_DESCRIPTION: string := "No Description"

  predicate IsImportant(c: Component)
  {
    c.name in IMPORTANT_COMPONENTS
  }

  predicate IsOperational(c: Component)
  {
    c.status == "operational"
  }

  // ---------------------------------------------------------------------------
  // Page 0: the operational count

  /** The allow-listed components, in summary order. */
  function ImportantOf(cs: seq<Component>): (r: seq<Component>)
    ensures |r| <= |cs|
    ensures forall c :: c in r <==> c in cs && IsImportant(c)
  {
    if cs == [] then []
    else
      var init, last := cs[..|cs| - 1], cs[|cs| - 1];
      assert cs == init + [last];
      ImportantOf(init) + (if IsImportant(last) then [last] else [])
  }

  /** The operational ones among `cs`, in order. */
  function OperationalOf(cs: seq<Component>): (r: seq<Component>)
    ensures |r| <= |cs|
    ensures forall c :: c in r <==> c in cs && IsOperational(c)
  {
    if cs == [] then []
    else
      var init, last := cs[..|cs| - 1], cs[|cs| - 1];
      assert cs == init + [last];
      OperationalOf(init) + (if IsOperational(last) then [last] else [])
  }

  /**
   * Every allow-listed entry is kept as often as it occurs, repeats included,
   * and no other entry is kept.
   */
  lemma {:induction false} ImportantOfCounts(cs: seq<Component>)
    ensures forall c :: multiset(ImportantOf(cs))[c] == if IsImportant(c) then multiset(cs)[c] else 0
  {
    if cs != [] {
      var init, last := cs[..|cs| - 1], cs[|cs| - 1];
      assert cs == init + [last];
      ImportantOfCounts(init);
    }
  }

  /** Every operational entry is kept as often as it occurs, and no other entry. */
  lemma {:induction false} OperationalOfCounts(cs: seq<Component>)
    ensures forall c :: multiset(OperationalOf(cs))[c] == if IsOperational(c) then multiset(cs)[c] else 0
  {
    if cs != [] {
      var init, last := cs[..|cs| - 1], cs[|cs| - 1];
      assert cs == init + [last];
      OperationalOfCounts(init);
    }
  }

  /** "**Components Operational**: `n/m`", with the overall status above it. */
  function GeneralDescription(s: Summary): string
  {
    var all := ImportantOf(s.components);
    var operational := OperationalOf(all);
    "**" + s.status.description + "**\n"
      + "**Impact**: `" + Title(s.status.indicator) + "`\n"
      + "**Components Operational**: `" + Decimal(|operational|) + "/" + Decimal(|all|) + "`"
  }

  // ---------------------------------------------------------------------------
  // Fields of pages 1 to 5

  function IncidentField(i: Incident): (f: Field)
    ensures f.name == i.name && f.inline
    ensures Contains(f.value, i.message) && Contains(f.value, i.impact)
  {
    var impactLabel := "\n**Impact**: `";
    ContainsInfix("", i.message, impactLabel + i.impact + "`");
    assert "" + i.message + (impactLabel + i.impact + "`") == i.message + impactLabel + i.impact + "`";
    ContainsInfix(i.message + impactLabel, i.impact, "`");
    Field(i.name, i.message + impactLabel + i.impact + "`", true)
  }

  /** One field per incident, in order. */
  function IncidentFields(incs: seq<Incident>): (r: seq<Field>)
    ensures |r| == |incs|
    ensures forall k :: 0 <= k < |incs| ==> r[k] == IncidentField(incs[k])
  {
    if incs == [] then []
    else IncidentFields(incs[..|incs| - 1]) + [IncidentField(incs[|incs| - 1])]
  }

  /** The description, or "No Description" when it is `null` or empty, then the status. */
  function ComponentField(c: Component): (f: Field)
    ensures f.name == c.name && !f.inline
    ensures c.description.Some? && c.description.value != "" ==> c.description.value <= f.value
    ensures (c.description.None? || c.description.value == "") ==> NO_DESCRIPTION <= f.value
    ensures Contains(f.value, Title(c.status))
  {
    var text := if c.description.Some? && c.description.value != "" then c.description.value else NO_DESCRIPTION;
    ContainsInfix(text + "\n**Status**: `", Title(c.status), "`");
    Field(c.name, text + "\n**Status**: `" + Title(c.status) + "`", false)
  }

  /** One field per allow-listed component, in summary order. */
  function ComponentFields(cs: seq<Component>): (r: seq<Field>)
    ensures |r| == |ImportantOf(cs)|
    ensures forall k :: 0 <= k < |r| ==> r[k] == ComponentField(ImportantOf(cs)[k])
  {
    if cs == [] then []
    else
      var init, last := cs[..|cs| - 1], cs[|cs| - 1];
      ComponentFields(init) + (if IsImportant(last) then [ComponentField(last)] else [])
  }

  function MonthTitle(m: Month): string
  {
    "Discord Status\nIncidents for " + m.name + " " + Decimal(m.year)
  }

  /** "Page {p+1}/{max pages}". */
  function Footer(page: nat): string
  {
    "Page " + Decimal(page + 1) + "/" + Decimal(PAGE_COUNT)
  }

  // ---------------------------------------------------------------------------
  // format_page

  /**
   * The pages `format_page` can render: one of the six, and for pages 3 to 5
   * a month that `response["months"]` actually has.
   */
  predicate ValidPage(src: StatusSource, page: nat)
  {
    page < PAGE_COUNT && (page >= 3 ==> page - 3 < |src.response.months|)
  }

  /** The embed of page `page`. */
  function FormatPage(src: StatusSource, page: nat): (u: DisplayUnit)
    requires ValidPage(src, page)
    ensures u.footer == Footer(page)
    ensures page == 0 ==> (
      u.fields == [] && u.description.Some? &&
      Contains(u.description.value,
        Decimal(|OperationalOf(ImportantOf(src.summary.components))|) + "/"
        + Decimal(|ImportantOf(src.summary.components)|)))
  {
    var footer := Footer(page);
    if page == 0 then
      var s := src.summary;
      var counts := Decimal(|OperationalOf(ImportantOf(s.components))|) + "/" + Decimal(|ImportantOf(s.components)|);
      var before := "**" + s.status.description + "**\n"
        + "**Impact**: `" + Title(s.status.indicator) + "`\n"
        + "**Components Operational**: `";
      ContainsInfix(before, counts, "`");
      assert GeneralDescription(s) == before + counts + "`";
      DisplayUnit(GENERAL_TITLE, Some(GeneralDescription(s)), [], footer)
    else if page == 1 then
      var incs := src.summary.incidents;
      DisplayUnit(INCIDENTS_TITLE, if incs == [] then Some(NO_ISSUES) else None, IncidentFields(incs), footer)
    else if page == 2 then
      DisplayUnit(OVERVIEW_TITLE, None, ComponentFields(src.summary.components), footer)
    else
      var month := src.response.months[page - 3];
      DisplayUnit(MonthTitle(month), if |month.incidents| == 0 then Some(NO_MONTH_INCIDENTS) else None,
                  IncidentFields(month.incidents), footer)
  }

  /** The footer of page `p` reads "Page {p+1}/6". */
  lemma FooterText(page: nat)
    requires page < PAGE_COUNT
    ensures Footer(page) == "Page " + [('1' as int + page) as char] + "/6"
  {
    SingleDigit(page + 1);
    SingleDigit(PAGE_COUNT);
  }

  /**
   * Page 0 counts only allow-listed components, and the operational count
   * never exceeds the total.
   */
  lemma GeneralPageCounts(src: StatusSource)
    ensures
      var all := ImportantOf(src.summary.components);
      var operational := OperationalOf(all);
      |operational| <= |all| &&
      (forall c :: c in all ==> c in src.summary.components && IsImportant(c)) &&
      (forall c :: c in operational <==> c in src.summary.components && IsImportant(c) && IsOperational(c)) &&
      (forall c :: multiset(all)[c] == if IsImportant(c) then multiset(src.summary.components)[c] else 0) &&
      (forall c :: multiset(operational)[c] ==
        if IsImportant(c) && IsOperational(c) then multiset(src.summary.components)[c] else 0)
  {
    var all := ImportantOf(src.summary.components);
    ImportantOfCounts(src.summary.components);
    OperationalOfCounts(all);
  }

  /** Page 1: the fixed "no issues" text, or one field per current incident, in order. */
  lemma CurrentIncidentsPage(src: StatusSource)
    ensures ValidPage(src, 1)
    ensures
      var u, incs := FormatPage(src, 1), src.summary.incidents;
      u.title == INCIDENTS_TITLE &&
      (incs == [] ==> u.description == Some(NO_ISSUES) && u.fields == []) &&
      (incs != [] ==> (
        u.description.None? && |u.fields| == |incs| &&
        forall k :: 0 <= k < |incs| ==>
          u.fields[k].name == incs[k].name &&
          Contains(u.fields[k].value, incs[k].message) && Contains(u.fields[k].value, incs[k].impact)))
  {
  }

  /**
   * Page 2: one field per allow-listed component, in summary order, showing
   * its description or "No Description"; as many fields as page 0's total.
   */
  lemma ComponentOverviewPage(src: StatusSource)
    ensures ValidPage(src, 2)
    ensures
      var u, all := FormatPage(src, 2), ImportantOf(src.summary.components);
      u.title == OVERVIEW_TITLE && u.description.None? && |u.fields| == |all| &&
      forall k :: 0 <= k < |all| ==>
        u.fields[k].name == all[k].name && !u.fields[k].inline &&
        (if all[k].description.Some? && all[k].description.value != ""
         then all[k].description.value <= u.fields[k].value
         else NO_DESCRIPTION <= u.fields[k].value)
  {
  }

  /** Pages 3 to 5 show month `page - 3`: the fixed text, or one field per incident, in order. */
  lemma MonthPage(src: StatusSource, page: nat)
    requires ValidPage(src, page) && page >= 3
    ensures
      var u, m := FormatPage(src, page), src.response.months[page - 3];
      u.title == MonthTitle(m) &&
      (|m.incidents| == 0 ==> u.description == Some(NO_MONTH_INCIDENTS) && u.fields == []) &&
      (|m.incidents| != 0 ==> (
        u.description.None? && |u.fields| == |m.incidents| &&
        forall k :: 0 <= k < |m.incidents| ==>
          u.fields[k].name == m.incidents[k].name &&
          Contains(u.fields[k].value, m.incidents[k].message) && Contains(u.fields[k].value, m.incidents[k].impact)))
  {
  }

  // ---------------------------------------------------------------------------
  // format_page, step by step

  /** `for incident in incs: embed.add_field(...)`. */
  method AddIncidentFields(fields: seq<Field>, incs: seq<Incident>) returns (r: seq<Field>)
    ensures r == fields + IncidentFields(incs)
  {
    r := fields;
    var i := 0;
    while i < |incs|
      invariant 0 <= i <= |incs|
      invariant r == fields + IncidentFields(incs[..i])
    {
      assert incs[..i + 1][..i] == incs[..i];
      r := r + [IncidentField(incs[i])];
      i := i + 1;
    }
    assert incs[..i] == incs;
  }

  /** Builds the embed of page `page` as `format_page` does, and gives the page `FormatPage` describes. */
  method RenderPage(src: StatusSource, page: nat) returns (u: DisplayUnit)
    requires ValidPage(src, page)
    ensures u == FormatPage(src, page)
  {
    var title: string;
    var description: Option<string> := None;
    var fields: seq<Field> := [];
    if page == 0 {
      title := GENERAL_TITLE;
      description := Some(GeneralDescription(src.summary));
    } else if page == 1 {
      title := INCIDENTS_TITLE;
      if src.summary.incidents == [] {
        description := Some(NO_ISSUES);
      } else {
        fields := AddIncidentFields(fields, src.summary.incidents);
      }
    } else if page == 2 {
      title := OVERVIEW_TITLE;
      var cs := src.summary.components;
      var i := 0;
      while i < |cs|
        invariant 0 <= i <= |cs|
        invariant fields == ComponentFields(cs[..i])
      {
        assert cs[..i + 1][..i] == cs[..i];
        if IsImportant(cs[i]) {
          fields := fields + [ComponentField(cs[i])];
        }
        i := i + 1;
      }
      assert cs[..i] == cs;
    } else {
      var month := src.response.months[page - 3];
      title := MonthTitle(month);
      if |month.incidents| == 0 {
        description := Some(NO_MONTH_INCIDENTS);
      } else {
        fields := AddIncidentFields(fields, month.incidents);
      }
    }
    u := DisplayUnit(title, description, fields, Footer(page));
  }

  // ---------------------------------------------------------------------------
  // format_page as written: line 36 reads the unbound name `summary`

  /** The outcome of calling the unrepaired `format_page`. */
  datatype Rendering = Rendered(unit: DisplayUnit) | NameError(name: string)

  /**
   * `format_page` exactly as written: on page 1 with at least one current
   * incident the loop reads `summary`, which is not bound in that scope.
   */
  function FormatPageAsWritten(src: StatusSource, page: nat): Rendering
    requires ValidPage(src, page)
  {
    if page == 1 && src.summary.incidents != [] then NameError("summary")
    else Rendered(FormatPage(src, page))
  }

  /**
   * With any current incident, page 1 as written raises, while the repaired
   * page lists every incident: one field each, in order, named after it.
   */
  lemma AsWrittenFailsOnIncident(src: StatusSource)
    requires src.summary.incidents != []
    ensures FormatPageAsWritten(src, 1) == NameError("summary")
    ensures
      var u, incs := FormatPage(src, 1), src.summary.incidents;
      |u.fields| == |incs| && forall k :: 0 <= k < |incs| ==> u.fields[k].name == incs[k].name
  {
    CurrentIncidentsPage(src);
  }

  // ---------------------------------------------------------------------------
  // serverinfo: animated and static emojis

  datatype Emoji = Emoji(name: string, animated: bool)

  /** The guild's animated emojis, in the guild's order. */
  function AnimatedOf(es: seq<Emoji>): (r: seq<Emoji>)
    ensures forall e :: e in r <==> e in es && e.animated
  {
    if es == [] then []
    else (if es[0].animated then [es[0]] else []) + AnimatedOf(es[1..])
  }

  /** The guild's static (not animated) emojis, in the guild's order. */
  function StaticOf(es: seq<Emoji>): (r: seq<Emoji>)
    ensures forall e :: e in r <==> e in es && !e.animated
  {
    if es == [] then []
    else (if es[0].animated then [] else [es[0]]) + StaticOf(es[1..])
  }

  /** The two lists split the guild's emojis: every emoji lands in exactly one, once. */
  lemma {:induction false} EmojiSplitIsPartition(es: seq<Emoji>)
    ensures multiset(AnimatedOf(es)) + multiset(StaticOf(es)) == multiset(es)
    ensures |AnimatedOf(es)| + |StaticOf(es)| == |es|
  {
    if es != [] {
      EmojiSplitIsPartition(es[1..]);
      assert es == [es[0]] + es[1..];
    }
  }

  /** The numbers of the "Emojis" field: total, static, animated. */
  datatype EmojiCounts = EmojiCounts(total: nat, notAnimated: nat, animated: nat)

  function EmojiCountsOf(es: seq<Emoji>): (r: EmojiCounts)
    ensures r.total == |es| && r.animated == |AnimatedOf(es)| && r.notAnimated == |StaticOf(es)|
    ensures r.notAnimated + r.animated == r.total
  {
    EmojiSplitIsPartition(es);
    EmojiCounts(|es|, |StaticOf(es)|, |AnimatedOf(es)|)
  }
}
