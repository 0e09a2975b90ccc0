/**
 * The text report over every material and the popup that summarises it.
 * The report is a list of lines: a header with the material count, one
 * line per unused node (two more for a group node some material uses), a
 * total, and rules; the popup reads the two counts back from the text.
 * The timestamp is a parameter.
 */
module Report {
  import opened Graph
  import opened Text
  import opened Unused
  import opened GroupUsage

  const Title := "ОТЧЁТ О НЕИСПОЛЬЗУЕМЫХ УЗЛАХ"
  const CreatedPrefix := "Создан: "
  const MaterialsMarker := "Проанализировано материалов:"
  const TotalMarker := "Всего найдено неиспользуемых узлов:"
  const NoneFoundMarker := "неиспользуемых узлов не найдено"
  const AllUsedMarker := "Все ноды используются"
  const NoMaterialsMarker := "Нет материалов для анализа"
  const AllUsedLine := "Все ноды используются."
  const NoMaterialsLine := "Нет материалов для анализа."
  const NotConnectedLine := "  → НЕ подключена к выходу ни в одном материале"
  const RuleWidth := 60

  /** The rule of sixty `=` the report opens and closes its body with. */
  function Rule(): (r: string)
    ensures |r| == RuleWidth
  {
    Repeat('=', RuleWidth)
  }

  /** One record of the merged result, with the name of its node. */
  datatype Entry = Entry(name: string, rec: Record)

  function MaterialsLine(n: nat): string {
    MaterialsMarker + " " + NatToString(n)
  }

  function TotalLine(n: nat): string {
    TotalMarker + " " + NatToString(n)
  }

  /** `[<path>] <name> (<type>)`: a node line, whose brackets enclose the
      path of the tree holding the node and whose name follows. */
  function EntryLine(e: Entry): (r: string)
    ensures Bracketed(r)
    ensures var p := e.rec.parentTree;
            && |r| > |p| + 3 + |e.name| && r[1..|p| + 1] == p && r[|p| + 1] == ']'
            && r[|p| + 3..|p| + 3 + |e.name|] == e.name
  {
    "[" + e.rec.parentTree + "] " + e.name + " (" + e.rec.typeTag + ")"
  }

  function GroupLine(mats: seq<string>): string {
    "  → Группа используется в материалах: [" + Join(mats, ", ") + "]"
  }

  function ConnectedLine(mats: seq<string>): string {
    "  → Подключена к выходу в материалах: [" + Join(mats, ", ") + "]"
  }

  /** The lines of one entry: its own line, then for a group node some
      material uses the materials and whether any instance is wired on. */
  function EntryLines(e: Entry): (r: seq<string>)
    ensures |r| >= 1 && r[0] == EntryLine(e)
    ensures |r| == 3 <==> e.rec.typeTag == GroupType && e.rec.materials != []
    ensures |r| != 3 ==> |r| == 1
  {
    if e.rec.typeTag == GroupType && e.rec.materials != [] then
      [EntryLine(e), GroupLine(e.rec.materials),
       if e.rec.connectedToOutput != [] then ConnectedLine(e.rec.connectedToOutput) else NotConnectedLine]
    else [EntryLine(e)]
  }

  function EntriesLines(es: seq<Entry>): seq<string> {
    if es == [] then [] else EntryLines(es[0]) + EntriesLines(es[1..])
  }

  /** The report's opening lines; `ts` is the creation time as text. */
  function Header(ts: string, n: nat): seq<string> {
    [Title, CreatedPrefix + ts, MaterialsLine(n), Rule()]
  }

  /** What the report holds between its header and its closing rule. */
  function Body(es: seq<Entry>): seq<string> {
    if es == [] then [AllUsedLine] else EntriesLines(es) + ["\n" + TotalLine(|es|)]
  }

  /** The report when some material has a node tree; `n` is the number of
      such materials. Its node lines are the entries' own lines, one per
      entry and in the entries' order. */
  function ReportLines(ts: string, n: nat, es: seq<Entry>): (r: seq<string>)
    ensures |Listed(r)| == |es|
    ensures forall j :: 0 <= j < |es| ==> Listed(r)[j] == EntryLine(es[j])
  {
    ListedBody(ts, n, es);
    Header(ts, n) + Body(es) + [Rule()]
  }

  /** The report when no material has a node tree: it lists no node. */
  function NoMaterialsLines(ts: string): (r: seq<string>)
    ensures Listed(r) == []
  {
    LeadingLetters();
    assert (CreatedPrefix + ts)[0] == CreatedPrefix[0];
    assert Rule()[0] == '=';
    assert NoMaterialsLine[0] == 'Н';
    var r := [Title, CreatedPrefix + ts, Rule(), NoMaterialsLine, Rule()];
    ListedNone(r);
    r
  }

  // ---------------------------------------------------------------------------
  // The popup's reading of the report
  // ---------------------------------------------------------------------------

  /** The counts the popup shows, as the text it found. */
  datatype Stats = Stats(materials: Option<string>, unused: Option<string>)

  /** `line.split(":")[1].strip()`. */
  function Field(line: string): string
    requires ':' in line
  {
    SplitSeveral(line, ':');
    Strip(Split(line, ':')[1])
  }

  /** The popup's test of one line; a later line overrides an earlier one.
      The material marker takes precedence over every other phrase, only
      the material and the "no materials" phrases touch the material count,
      a count once read is never lost, and a line with no phrase changes
      nothing. */
  function ParseLine(st: Stats, line: string): (r: Stats)
    ensures Contains(line, MaterialsMarker) ==> r.materials.Some? && r.unused == st.unused
    ensures r.materials != st.materials ==> Contains(line, MaterialsMarker) || Contains(line, NoMaterialsMarker)
    ensures r.unused != st.unused ==> !Contains(line, MaterialsMarker) && r.unused.Some?
    ensures st.materials.Some? ==> r.materials.Some?
    ensures st.unused.Some? ==> r.unused.Some?
    ensures Plain(line) ==> r == st
  {
    if Contains(line, MaterialsMarker) then
      assert MaterialsMarker[|MaterialsMarker| - 1] == ':';
      ContainsChar(line, MaterialsMarker, ':');
      st.(materials := Some(Field(line)))
    else if Contains(line, TotalMarker) then
      assert TotalMarker[|TotalMarker| - 1] == ':';
      ContainsChar(line, TotalMarker, ':');
      st.(unused := Some(Field(line)))
    else if Contains(line, NoneFoundMarker) then st.(unused := Some("0"))
    else if Contains(line, AllUsedMarker) then st.(unused := Some("0"))
    else if Contains(line, NoMaterialsMarker) then Stats(Some("0"), Some("0"))
    else st
  }

  function ParseLines(st: Stats, lines: seq<string>): Stats
    decreases |lines|
  {
    if lines == [] then st else ParseLines(ParseLine(st, lines[0]), lines[1..])
  }

  /** `NODE_OT_SimpleReportPopup.draw`'s statistics from the report text,
      read line by line; text of one line is read as that line. */
  function ParseStats(text: string): (r: Stats)
    ensures '\n' !in text ==> r == ParseLine(Stats(None, None), text)
  {
    if '\n' !in text then
      SplitNone(text, '\n');
      ParseOne(Stats(None, None), text);
      ParseLines(Stats(None, None), Split(text, '\n'))
    else ParseLines(Stats(None, None), Split(text, '\n'))
  }

  /** The labels the popup draws above its button. */
  function PopupLabels(st: Stats): (r: seq<string>)
    ensures |r| == 1 + (if st.materials.Some? then 1 else 0) + (if st.unused.Some? then 1 else 0)
    ensures st.materials.Some? ==> r[1] == "Материалов: " + st.materials.value
    ensures st.unused.Some? ==> r[|r| - 1] == "Неиспользуемых: " + st.unused.value
  {
    ["Отчет о нодах"]
    + (if st.materials.Some? then ["Материалов: " + st.materials.value] else [])
    + (if st.unused.Some? then ["Неиспользуемых: " + st.unused.value] else [])
  }

  /** Text holding none of the phrases the popup looks for. */
  predicate Plain(line: string) {
    && !Contains(line, MaterialsMarker) && !Contains(line, TotalMarker) && !Contains(line, NoneFoundMarker)
    && !Contains(line, AllUsedMarker) && !Contains(line, NoMaterialsMarker)
  }

  /** A line the popup skips: one line of text holding no marker phrase. */
  predicate Neutral(line: string) {
    '\n' !in line && Plain(line)
  }

  lemma {:induction false} ParseLinesAppend(st: Stats, a: seq<string>, b: seq<string>)
    ensures ParseLines(st, a + b) == ParseLines(ParseLines(st, a), b)
    decreases |a|
  {
    if a != [] {
      assert (a + b)[0] == a[0] && (a + b)[1..] == a[1..] + b;
      ParseLinesAppend(ParseLine(st, a[0]), a[1..], b);
    } else {
      assert a + b == b;
    }
  }

  /** Lines without markers leave the statistics alone. */
  lemma {:induction false} ParseLinesNeutral(st: Stats, lines: seq<string>)
    requires forall k :: 0 <= k < |lines| ==> Neutral(lines[k])
    ensures ParseLines(st, lines) == st
    decreases |lines|
  {
    if lines != [] {
      assert Neutral(lines[0]);
      ParseLinesNeutral(st, lines[1..]);
    }
  }

  /** Proof helper: the title is written in capitals only. */
  lemma TitleCapitals()
    ensures forall k :: 0 <= k < |Title| ==> Title[k] < 'а'
  {
  }

  /** The fixed lines of the report hold no marker phrase. */
  lemma TitleNeutral()
    ensures Neutral(Title)
  {
    TitleCapitals();
    assert MaterialsMarker[1] == 'р';
    NotContainsByChar(Title, MaterialsMarker, 'р');
    assert TotalMarker[1] == 'с';
    NotContainsByChar(Title, TotalMarker, 'с');
    assert NoneFoundMarker[0] == 'н';
    NotContainsByChar(Title, NoneFoundMarker, 'н');
    assert AllUsedMarker[1] == 'с';
    NotContainsByChar(Title, AllUsedMarker, 'с');
    assert NoMaterialsMarker[1] == 'е';
    NotContainsByChar(Title, NoMaterialsMarker, 'е');
  }

  lemma RuleNeutral()
    ensures Neutral(Rule())
  {
    assert MaterialsMarker[1] == 'р';
    NotContainsByChar(Rule(), MaterialsMarker, 'р');
    assert TotalMarker[1] == 'с';
    NotContainsByChar(Rule(), TotalMarker, 'с');
    assert NoneFoundMarker[0] == 'н';
    NotContainsByChar(Rule(), NoneFoundMarker, 'н');
    assert AllUsedMarker[1] == 'с';
    NotContainsByChar(Rule(), AllUsedMarker, 'с');
    assert NoMaterialsMarker[1] == 'е';
    NotContainsByChar(Rule(), NoMaterialsMarker, 'е');
  }

  lemma EmptyNeutral()
    ensures Neutral("")
  {
    assert !OccursAt("", MaterialsMarker, 0) && !OccursAt("", TotalMarker, 0) && !OccursAt("", NoneFoundMarker, 0);
    assert !OccursAt("", AllUsedMarker, 0) && !OccursAt("", NoMaterialsMarker, 0);
  }

  /** A marker followed by one blank and a count yields that count. */
  lemma FieldOfCount(marker: string, n: nat)
    requires |marker| > 0 && ':' !in marker[..|marker| - 1] && marker[|marker| - 1] == ':'
    ensures ':' in marker + " " + NatToString(n)
    ensures Field(marker + " " + NatToString(n)) == NatToString(n)
  {
    var a := marker[..|marker| - 1];
    var digits := NatToString(n);
    var line := marker + " " + digits;
    assert line == a + [':'] + (" " + digits);
    assert ':' !in " " + digits;
    SplitAtFirst(a, ':', " " + digits);
    SplitNone(" " + digits, ':');
    assert " " + digits == seq(1, _ => ' ') + digits;
    StripBlanks(1, digits);
  }

  /** The material line sets the material count. */
  lemma ParseMaterialsLine(st: Stats, n: nat)
    ensures ParseLine(st, MaterialsLine(n)) == st.(materials := Some(NatToString(n)))
  {
    var line := MaterialsLine(n);
    assert OccursAt(line, MaterialsMarker, 0);
    FieldOfCount(MaterialsMarker, n);
  }

  /** The total line sets the unused count. */
  lemma ParseTotalLine(st: Stats, n: nat)
    ensures ParseLine(st, TotalLine(n)) == st.(unused := Some(NatToString(n)))
  {
    var line := TotalLine(n);
    MarkerLetters();
    TotalLineLetters(n);
    NotContainsByChar(line, MaterialsMarker, 'П');
    assert OccursAt(line, TotalMarker, 0);
    FieldOfCount(TotalMarker, n);
  }

  /** Proof helper: a letter the total marker lacks. */
  lemma TotalMarkerLetters()
    ensures 'П' !in TotalMarker + " "
  {
  }

  /** The total line lacks the material marker's first letter. */
  lemma TotalLineLetters(n: nat)
    ensures 'П' !in TotalLine(n)
  {
    TotalMarkerLetters();
    var d := NatToString(n);
    assert TotalLine(n) == (TotalMarker + " ") + d;
    assert 'П' !in d;
  }

  /** Proof helper: letters of the markers that the two fixed body lines lack. */
  lemma AllUsedLineLetters()
    ensures 'П' !in AllUsedLine && 'й' !in AllUsedLine
  {
  }

  /** Proof helper: letters the "no materials" line lacks. */
  lemma NoMaterialsLineLetters()
    ensures 'П' !in NoMaterialsLine && 'В' !in NoMaterialsLine && 'й' !in NoMaterialsLine
  {
  }

  /** Proof helper: letters the markers hold. */
  lemma MarkerLetters()
    ensures MaterialsMarker[0] == 'П' && TotalMarker[0] == 'В' && TotalMarker[8] == 'й'
    ensures NoneFoundMarker[26] == 'й' && AllUsedMarker[0] == 'В'
  {
  }

  /** "All nodes used" sets the unused count to zero. */
  lemma ParseAllUsedLine(st: Stats)
    ensures ParseLine(st, AllUsedLine) == st.(unused := Some("0"))
  {
    AllUsedLineLetters();
    MarkerLetters();
    NotContainsByChar(AllUsedLine, MaterialsMarker, 'П');
    NotContainsByChar(AllUsedLine, TotalMarker, 'й');
    NotContainsByChar(AllUsedLine, NoneFoundMarker, 'й');
    assert OccursAt(AllUsedLine, AllUsedMarker, 0);
  }

  /** "No materials" sets both counts to zero. */
  lemma ParseNoMaterialsLine(st: Stats)
    ensures ParseLine(st, NoMaterialsLine) == Stats(Some("0"), Some("0"))
  {
    NoMaterialsLineLetters();
    MarkerLetters();
    NotContainsByChar(NoMaterialsLine, MaterialsMarker, 'П');
    NotContainsByChar(NoMaterialsLine, TotalMarker, 'В');
    NotContainsByChar(NoMaterialsLine, NoneFoundMarker, 'й');
    NotContainsByChar(NoMaterialsLine, AllUsedMarker, 'В');
    assert OccursAt(NoMaterialsLine, NoMaterialsMarker, 0);
  }

  /** Every line an entry contributes is skipped by the popup. */
  predicate NeutralEntry(e: Entry) {
    forall k :: 0 <= k < |EntryLines(e)| ==> Neutral(EntryLines(e)[k])
  }

  lemma {:induction false} EntriesLinesNeutral(es: seq<Entry>)
    requires forall j :: 0 <= j < |es| ==> NeutralEntry(es[j])
    ensures forall k :: 0 <= k < |EntriesLines(es)| ==> Neutral(EntriesLines(es)[k])
  {
    if es != [] {
      assert NeutralEntry(es[0]);
      EntriesLinesNeutral(es[1..]);
      var a := EntryLines(es[0]);
      var b := EntriesLines(es[1..]);
      forall k | 0 <= k < |a + b| ensures Neutral((a + b)[k]) {
        if k < |a| {
          assert (a + b)[k] == a[k];
        } else {
          assert (a + b)[k] == b[k - |a|];
        }
      }
    }
  }

  /** A count line holds no line break. */
  lemma CountLineSingle(marker: string, n: nat)
    requires '\n' !in marker
    ensures '\n' !in marker + " " + NatToString(n)
  {
    var d := NatToString(n);
    forall k | 0 <= k < |marker + " " + d| ensures (marker + " " + d)[k] != '\n' {
      if k > |marker| {
        assert (marker + " " + d)[k] == d[k - |marker| - 1];
      }
    }
  }

  lemma MarkersSingle()
    ensures '\n' !in MaterialsMarker && '\n' !in TotalMarker
  {
  }

  /** The popup reads the counts back from a report: the number of
      materials and the number of entries, as long as no line but the
      fixed ones holds a marker phrase. */
  lemma ParseReport(ts: string, n: nat, es: seq<Entry>)
    requires Neutral(CreatedPrefix + ts)
    requires forall j :: 0 <= j < |es| ==> NeutralEntry(es[j])
    ensures ParseStats(Join(ReportLines(ts, n, es), "\n")) == Stats(Some(NatToString(n)), Some(NatToString(|es|)))
  {
    if es == [] {
      ParseUsedReport(ts, n);
    } else {
      ParseListedReport(ts, n, es);
    }
  }

  /** No line holds a line break. */
  predicate SingleLines(lines: seq<string>) {
    forall k :: 0 <= k < |lines| ==> '\n' !in lines[k]
  }

  /** Text made of single lines splits back into those lines. */
  lemma ParseText(lines: seq<string>)
    requires lines != []
    requires SingleLines(lines)
    ensures ParseStats(Join(lines, "\n")) == ParseLines(Stats(None, None), lines)
  {
    assert "\n" == ['\n'];
    SplitJoin(lines, '\n');
    assert Split(Join(lines, "\n"), '\n') == lines;
  }

  lemma ParseOne(st: Stats, line: string)
    ensures ParseLines(st, [line]) == ParseLine(st, line)
  {
    assert [line][1..] == [];
  }

  lemma ParseUsedReport(ts: string, n: nat)
    requires Neutral(CreatedPrefix + ts)
    ensures ParseStats(Join(ReportLines(ts, n, []), "\n")) == Stats(Some(NatToString(n)), Some("0"))
  {
    var st0 := Stats(None, None);
    var st1 := Stats(Some(NatToString(n)), None);
    var h := Header(ts, n);
    var lines := h + [AllUsedLine] + [Rule()];
    assert ReportLines(ts, n, []) == lines;
    assert '\n' !in AllUsedLine by {
      AllUsedLineLetters();
    }
    HeaderSingle(ts, n);
    RuleNeutral();
    assert SingleLines(lines) by {
      forall k | 0 <= k < |lines| ensures '\n' !in lines[k] {
        if k < |h| {
          assert lines[k] == h[k];
        }
      }
    }
    ParseText(lines);
    ParseLinesAppend(st0, h + [AllUsedLine], [Rule()]);
    ParseLinesAppend(st0, h, [AllUsedLine]);
    ParseHeader(ts, n);
    ParseOne(st1, AllUsedLine);
    ParseAllUsedLine(st1);
    ParseLinesNeutral(st1.(unused := Some("0")), [Rule()]);
  }

  lemma ParseListedReport(ts: string, n: nat, es: seq<Entry>)
    requires Neutral(CreatedPrefix + ts)
    requires es != []
    requires forall j :: 0 <= j < |es| ==> NeutralEntry(es[j])
    ensures ParseStats(Join(ReportLines(ts, n, es), "\n")) == Stats(Some(NatToString(n)), Some(NatToString(|es|)))
  {
    var st1 := Stats(Some(NatToString(n)), None);
    var h := Header(ts, n);
    var e := EntriesLines(es);
    var t := TotalLine(|es|);
    assert ReportLines(ts, n, es) == h + e + ["\n" + t] + [Rule()];
    BreakBeforeTotal(h + e, t, Rule());
    var lines := h + e + ["", t] + [Rule()];
    ListedSingle(ts, n, es);
    assert |lines| > 0;
    ParseText(lines);
    ParseHeader(ts, n);
    EntriesLinesNeutral(es);
    ParseTail(st1, |es|);
    RuleNeutral();
    ParseSections(Stats(None, None), h, e, ["", t], Rule());
  }

  /** Parsing a header, neutral lines, a tail and a neutral last line. */
  lemma ParseSections(st: Stats, h: seq<string>, e: seq<string>, tail: seq<string>, r: string)
    requires forall k :: 0 <= k < |e| ==> Neutral(e[k])
    requires Neutral(r)
    ensures ParseLines(st, h + e + tail + [r]) == ParseLines(ParseLines(st, h), tail)
  {
    ParseLinesAppend(st, h + e + tail, [r]);
    ParseLinesAppend(st, h + e, tail);
    ParseLinesAppend(st, h, e);
    ParseLinesNeutral(ParseLines(st, h), e);
    ParseLinesNeutral(ParseLines(ParseLines(st, h), tail), [r]);
  }

  /** The empty line and the total line set the node count. */
  lemma ParseTail(st: Stats, m: nat)
    ensures ParseLines(st, ["", TotalLine(m)]) == st.(unused := Some(NatToString(m)))
  {
    EmptyNeutral();
    ParseLinesAppend(st, [""], [TotalLine(m)]);
    ParseLinesNeutral(st, [""]);
    ParseOne(st, TotalLine(m));
    ParseTotalLine(st, m);
  }

  lemma HeaderSingle(ts: string, n: nat)
    requires Neutral(CreatedPrefix + ts)
    ensures SingleLines(Header(ts, n))
  {
    TitleNeutral();
    RuleNeutral();
    MarkersSingle();
    CountLineSingle(MaterialsMarker, n);
  }

  /** No line of a report with nodes listed, once the total's leading
      break is its own empty line, holds a line break. */
  lemma ListedSingle(ts: string, n: nat, es: seq<Entry>)
    requires Neutral(CreatedPrefix + ts)
    requires forall j :: 0 <= j < |es| ==> NeutralEntry(es[j])
    ensures SingleLines(Header(ts, n) + EntriesLines(es) + ["", TotalLine(|es|)] + [Rule()])
  {
    HeaderSingle(ts, n);
    EntriesLinesNeutral(es);
    NeutralSingle(EntriesLines(es));
    TailSingle(|es|);
    RuleNeutral();
    SingleSections(Header(ts, n), EntriesLines(es), ["", TotalLine(|es|)], Rule());
  }

  lemma NeutralSingle(lines: seq<string>)
    requires forall k :: 0 <= k < |lines| ==> Neutral(lines[k])
    ensures SingleLines(lines)
  {
  }

  lemma SingleSections(h: seq<string>, e: seq<string>, tail: seq<string>, r: string)
    requires SingleLines(h) && SingleLines(e) && SingleLines(tail) && '\n' !in r
    ensures SingleLines(h + e + tail + [r])
  {
    SingleConcat(h, e);
    SingleConcat(h + e, tail);
    SingleConcat(h + e + tail, [r]);
  }

  lemma TailSingle(m: nat)
    ensures SingleLines(["", TotalLine(m)])
  {
    MarkersSingle();
    CountLineSingle(TotalMarker, m);
    var tail := ["", TotalLine(m)];
    forall k | 0 <= k < 2 ensures '\n' !in tail[k] {
      if k == 1 {
        assert tail[k] == TotalMarker + " " + NatToString(m);
      }
    }
  }

  lemma SingleConcat(a: seq<string>, b: seq<string>)
    requires SingleLines(a) && SingleLines(b)
    ensures SingleLines(a + b)
  {
    forall k | 0 <= k < |a + b| ensures '\n' !in (a + b)[k] {
      if k < |a| {
        assert (a + b)[k] == a[k];
      } else {
        assert (a + b)[k] == b[k - |a|];
      }
    }
  }

  /** The header sets the material count only. */
  lemma ParseHeader(ts: string, n: nat)
    requires Neutral(CreatedPrefix + ts)
    ensures ParseLines(Stats(None, None), Header(ts, n)) == Stats(Some(NatToString(n)), None)
  {
    var st0 := Stats(None, None);
    var st1 := Stats(Some(NatToString(n)), None);
    var intro := [Title, CreatedPrefix + ts];
    var m := MaterialsLine(n);
    TitleNeutral();
    RuleNeutral();
    assert Header(ts, n) == intro + [m] + [Rule()];
    ParseLinesNeutral(st0, intro);
    assert ParseLines(st0, intro) == st0;
    ParseOne(st0, m);
    ParseMaterialsLine(st0, n);
    assert ParseLines(st0, [m]) == st1;
    ParseLinesAppend(st0, intro, [m]);
    assert ParseLines(st0, intro + [m]) == st1;
    ParseLinesNeutral(st1, [Rule()]);
    ParseLinesAppend(st0, intro + [m], [Rule()]);
  }

  /** The total line's leading break is an empty line of its own. */
  lemma BreakBeforeTotal(a: seq<string>, t: string, r: string)
    requires a != []
    ensures Join(a + ["\n" + t] + [r], "\n") == Join(a + ["", t] + [r], "\n")
  {
    assert a + ["\n" + t] + [r] == a + ["\n" + t, r];
    assert a + ["", t] + [r] == a + ["", t, r];
    JoinAppend(a, ["\n" + t, r], "\n");
    JoinAppend(a, ["", t, r], "\n");
    assert Join(["", t, r], "\n") == "" + "\n" + Join([t, r], "\n");
    assert Join(["\n" + t, r], "\n") == "\n" + t + "\n" + Join([r], "\n");
  }

  /** The popup reads zero materials and zero nodes from the report made
      when no material has a node tree. */
  lemma ParseNoMaterialsReport(ts: string)
    requires Neutral(CreatedPrefix + ts)
    ensures ParseStats(Join(NoMaterialsLines(ts), "\n")) == Stats(Some("0"), Some("0"))
  {
    var st0 := Stats(None, None);
    var lines := NoMaterialsLines(ts);
    TitleNeutral();
    RuleNeutral();
    assert '\n' !in NoMaterialsLine by {
      NoMaterialsLineLetters();
    }
    SplitJoin(lines, '\n');
    assert lines == [Title, CreatedPrefix + ts, Rule()] + [NoMaterialsLine] + [Rule()];
    ParseLinesAppend(st0, [Title, CreatedPrefix + ts, Rule()] + [NoMaterialsLine], [Rule()]);
    ParseLinesAppend(st0, [Title, CreatedPrefix + ts, Rule()], [NoMaterialsLine]);
    ParseLinesNeutral(st0, [Title, CreatedPrefix + ts, Rule()]);
    ParseNoMaterialsLine(st0);
  }

  // ---------------------------------------------------------------------------
  // The entries the report lists
  // ---------------------------------------------------------------------------

  /** The lines of a report that open with `[`: the node lines. */
  function Listed(lines: seq<string>): seq<string>
    decreases |lines|
  {
    if lines == [] then []
    else (if Bracketed(lines[0]) then [lines[0]] else []) + Listed(lines[1..])
  }

  predicate Bracketed(line: string) {
    |line| > 0 && line[0] == '['
  }

  lemma {:induction false} ListedAppend(a: seq<string>, b: seq<string>)
    ensures Listed(a + b) == Listed(a) + Listed(b)
    decreases |a|
  {
    if a != [] {
      assert (a + b)[0] == a[0] && (a + b)[1..] == a[1..] + b;
      ListedAppend(a[1..], b);
    } else {
      assert a + b == b;
    }
  }

  lemma {:induction false} ListedNone(lines: seq<string>)
    requires forall k :: 0 <= k < |lines| ==> !Bracketed(lines[k])
    ensures Listed(lines) == []
    decreases |lines|
  {
    if lines != [] {
      ListedNone(lines[1..]);
    }
  }

  /** Proof helper: the first letters of the fixed lines. */
  lemma LeadingLetters()
    ensures Title[0] == 'О' && CreatedPrefix[0] == 'С' && MaterialsMarker[0] == 'П'
    ensures AllUsedLine[0] == 'В'
  {
  }

  /** The fixed lines around the entries are not node lines. */
  lemma FrameUnlisted(ts: string, n: nat, m: nat)
    ensures Listed(Header(ts, n)) == [] && Listed([Rule()]) == []
    ensures Listed([AllUsedLine]) == [] && Listed(["\n" + TotalLine(m)]) == []
  {
    LeadingLetters();
    assert (CreatedPrefix + ts)[0] == CreatedPrefix[0];
    assert MaterialsLine(n)[0] == MaterialsMarker[0];
    assert Rule()[0] == '=';
    ListedNone(Header(ts, n));
    ListedNone([Rule()]);
    ListedNone([AllUsedLine]);
    ListedNone(["\n" + TotalLine(m)]);
  }

  /** An entry contributes exactly its own line to the node lines. */
  lemma ListedEntry(e: Entry)
    ensures Listed(EntryLines(e)) == [EntryLine(e)]
  {
    var r := EntryLines(e);
    assert Bracketed(EntryLine(e));
    if |r| == 3 {
      var mats := e.rec.materials;
      var conn := e.rec.connectedToOutput;
      assert GroupLine(mats)[0] == ' ';
      assert ConnectedLine(conn)[0] == ' ';
      assert NotConnectedLine[0] == ' ';
      assert r == [EntryLine(e)] + r[1..];
      ListedNone(r[1..]);
      ListedAppend([EntryLine(e)], r[1..]);
    }
    assert Listed([EntryLine(e)]) == [EntryLine(e)];
  }

  lemma {:induction false} ListedEntries(es: seq<Entry>)
    ensures |Listed(EntriesLines(es))| == |es|
    ensures forall j :: 0 <= j < |es| ==> Listed(EntriesLines(es))[j] == EntryLine(es[j])
    decreases |es|
  {
    if es != [] {
      ListedEntry(es[0]);
      ListedEntries(es[1..]);
      ListedAppend(EntryLines(es[0]), EntriesLines(es[1..]));
      var r := Listed(EntriesLines(es));
      forall j | 0 <= j < |es| ensures r[j] == EntryLine(es[j]) {
        if j > 0 {
          assert es[1..][j - 1] == es[j];
        }
      }
    }
  }

  /** The node lines of header, body and closing rule are the entries'
      own lines. */
  lemma ListedBody(ts: string, n: nat, es: seq<Entry>)
    ensures |Listed(Header(ts, n) + Body(es) + [Rule()])| == |es|
    ensures forall j :: 0 <= j < |es| ==> Listed(Header(ts, n) + Body(es) + [Rule()])[j] == EntryLine(es[j])
  {
    FrameUnlisted(ts, n, |es|);
    ListedAppend(Header(ts, n) + Body(es), [Rule()]);
    ListedAppend(Header(ts, n), Body(es));
    if es != [] {
      ListedAppend(EntriesLines(es), ["\n" + TotalLine(|es|)]);
      ListedEntries(es);
    }
  }

  // ---------------------------------------------------------------------------
  // Building the report
  // ---------------------------------------------------------------------------

  /** The keys each material's recursive search finds; none for a
      material without a node tree. */
  ghost function Founds(lib: Library, rank: map<TreeId, nat>, mats: seq<Material>, showAttributes: bool): (fs: seq<set<NodeRef>>)
    requires Ranked(lib, rank)
    ensures |fs| == |mats|
  {
    seq(|mats|, j requires 0 <= j < |mats| =>
      if Usable(lib, mats[j]) then RecursiveKeys(lib, rank, mats[j].tree.value, showAttributes) else {})
  }

  /** The keys of the first `n` key sets together. */
  function UnionOf(fs: seq<set<NodeRef>>, n: nat): set<NodeRef>
    requires n <= |fs|
  {
    if n == 0 then {} else UnionOf(fs, n - 1) + fs[n - 1]
  }

  /** The last of the first `n` key sets holding `k` (the search whose
      record the merge keeps), or -1. */
  function LastSource(fs: seq<set<NodeRef>>, n: nat, k: NodeRef): (j: int)
    requires n <= |fs|
    ensures -1 <= j < n
    ensures j >= 0 ==> k in fs[j]
  {
    if n == 0 then -1
    else if k in fs[n - 1] then n - 1
    else LastSource(fs, n - 1, k)
  }

  /** A key has a source exactly when the union holds it. */
  lemma {:induction false} LastSourceMerged(fs: seq<set<NodeRef>>, n: nat, k: NodeRef)
    requires n <= |fs|
    ensures k in UnionOf(fs, n) <==> LastSource(fs, n, k) >= 0
  {
    if n > 0 {
      LastSourceMerged(fs, n - 1, k);
    }
  }

  /** No key set after a key's last source holds the key. */
  lemma {:induction false} LastSourceIsLast(fs: seq<set<NodeRef>>, n: nat, k: NodeRef, j: int)
    requires n <= |fs|
    requires LastSource(fs, n, k) < j < n
    ensures k !in fs[j]
  {
    if j < n - 1 {
      LastSourceIsLast(fs, n - 1, k, j);
    }
  }

  /** `rec` is a record the last of the first `n` searches finding `k`
      can leave for it. */
  ghost predicate Sourced(lib: Library, rank: map<TreeId, nat>, mats: seq<Material>, fs: seq<set<NodeRef>>, n: nat,
                          showAttributes: bool, k: NodeRef, rec: Record)
  {
    && Ranked(lib, rank) && n <= |mats| == |fs|
    && var j := LastSource(fs, n, k);
       && j >= 0 && Usable(lib, mats[j])
       && PossibleRecord(lib, rank, mats[j].tree.value, mats[j].name, showAttributes, k, rec)
  }

  /** `merged` is the merge of the first `n` searches, whose key sets are
      `fs`: the keys of all of them, each with a record the last search
      finding it can leave. */
  ghost predicate MergedBy(lib: Library, rank: map<TreeId, nat>, mats: seq<Material>, fs: seq<set<NodeRef>>, n: nat,
                           showAttributes: bool, merged: map<NodeRef, Record>)
  {
    && Ranked(lib, rank) && n <= |mats| == |fs|
    && merged.Keys == UnionOf(fs, n)
    && forall k :: k in merged ==> Sourced(lib, rank, mats, fs, n, showAttributes, k, merged[k])
  }

  /** `merged` is the merge of the first `n` materials' recursive searches. */
  ghost predicate Merged(lib: Library, rank: map<TreeId, nat>, mats: seq<Material>, n: nat,
                         showAttributes: bool, merged: map<NodeRef, Record>)
  {
    Ranked(lib, rank) && MergedBy(lib, rank, mats, Founds(lib, rank, mats, showAttributes), n, showAttributes, merged)
  }

  /** A key the next search finds takes that search's record. */
  lemma SourcedNew(lib: Library, rank: map<TreeId, nat>, mats: seq<Material>, fs: seq<set<NodeRef>>, n: nat,
                   showAttributes: bool, k: NodeRef, rec: Record)
    requires Ranked(lib, rank) && n < |mats| == |fs| && k in fs[n] && Usable(lib, mats[n])
    requires PossibleRecord(lib, rank, mats[n].tree.value, mats[n].name, showAttributes, k, rec)
    ensures Sourced(lib, rank, mats, fs, n + 1, showAttributes, k, rec)
  {
    assert LastSource(fs, n + 1, k) == n;
  }

  /** A key the next search does not find keeps its record and source. */
  lemma SourcedOld(lib: Library, rank: map<TreeId, nat>, mats: seq<Material>, fs: seq<set<NodeRef>>, n: nat,
                   showAttributes: bool, k: NodeRef, rec: Record)
    requires n < |mats| == |fs| && k !in fs[n]
    requires Sourced(lib, rank, mats, fs, n, showAttributes, k, rec)
    ensures Sourced(lib, rank, mats, fs, n + 1, showAttributes, k, rec)
  {
    assert LastSource(fs, n + 1, k) == LastSource(fs, n, k);
  }

  lemma MergedSkip(lib: Library, rank: map<TreeId, nat>, mats: seq<Material>, fs: seq<set<NodeRef>>, n: nat,
                   showAttributes: bool, merged: map<NodeRef, Record>)
    requires MergedBy(lib, rank, mats, fs, n, showAttributes, merged) && n < |mats| && fs[n] == {}
    ensures MergedBy(lib, rank, mats, fs, n + 1, showAttributes, merged)
  {
    forall k | k in merged ensures Sourced(lib, rank, mats, fs, n + 1, showAttributes, k, merged[k]) {
      SourcedOld(lib, rank, mats, fs, n, showAttributes, k, merged[k]);
    }
  }

  lemma MergedStep(lib: Library, rank: map<TreeId, nat>, mats: seq<Material>, fs: seq<set<NodeRef>>, n: nat,
                   showAttributes: bool, merged: map<NodeRef, Record>, found: map<NodeRef, Record>)
    requires MergedBy(lib, rank, mats, fs, n, showAttributes, merged) && n < |mats| && Usable(lib, mats[n])
    requires found.Keys == fs[n]
    requires forall k :: k in found ==> PossibleRecord(lib, rank, mats[n].tree.value, mats[n].name, showAttributes, k, found[k])
    ensures MergedBy(lib, rank, mats, fs, n + 1, showAttributes, merged + found)
  {
    var next := merged + found;
    forall k | k in next ensures Sourced(lib, rank, mats, fs, n + 1, showAttributes, k, next[k]) {
      if k in found {
        SourcedNew(lib, rank, mats, fs, n, showAttributes, k, found[k]);
      } else {
        SourcedOld(lib, rank, mats, fs, n, showAttributes, k, merged[k]);
      }
    }
  }

  /** The merge loop of `build_report`: each usable material's recursive
      search, under the material's name, laid over the results so far. */
  method MergeMaterials(lib: Library, rank: map<TreeId, nat>, mats: seq<Material>, showAttributes: bool)
    returns (merged: map<NodeRef, Record>)
    requires Ranked(lib, rank)
    ensures Merged(lib, rank, mats, |mats|, showAttributes, merged)
  {
    ghost var fs := Founds(lib, rank, mats, showAttributes);
    merged := map[];
    var i := 0;
    while i < |mats|
      invariant i <= |mats|
      invariant MergedBy(lib, rank, mats, fs, i, showAttributes, merged)
    {
      var m := mats[i];
      if Usable(lib, m) {
        var found := FindUnusedNodesRecursive(lib, rank, m.tree.value, m.name, showAttributes);
        assert fs[i] == found.Keys;
        MergedStep(lib, rank, mats, fs, i, showAttributes, merged, found);
        merged := merged + found;
      } else {
        assert fs[i] == {};
        MergedSkip(lib, rank, mats, fs, i, showAttributes, merged);
      }
      i := i + 1;
    }
  }

  /** The name of the node a key stands for. */
  function NodeName(lib: Library, k: NodeRef): string {
    if NodeAt(lib, k).Some? then NodeAt(lib, k).value.name else ""
  }

  /** The entries of `found` in the order `keys` lists them. */
  function Entries(lib: Library, found: map<NodeRef, Record>, keys: seq<NodeRef>): (es: seq<Entry>)
    requires forall j :: 0 <= j < |keys| ==> keys[j] in found
    ensures |es| == |keys|
    ensures forall j :: 0 <= j < |keys| ==> es[j] == Entry(NodeName(lib, keys[j]), found[keys[j]])
  {
    if keys == [] then [] else [Entry(NodeName(lib, keys[0]), found[keys[0]])] + Entries(lib, found, keys[1..])
  }

  /** The keys of a map, each once, in some order (the source iterates the
      dictionary in insertion order, which follows the unordered search). */
  method ListKeys(found: map<NodeRef, Record>) returns (keys: seq<NodeRef>)
    ensures NoDup(keys)
    ensures forall j :: 0 <= j < |keys| ==> keys[j] in found
    ensures forall k :: k in found ==> k in keys
  {
    keys := [];
    var rest := found.Keys;
    while rest != {}
      invariant rest <= found.Keys && NoDup(keys)
      invariant forall j :: 0 <= j < |keys| ==> keys[j] in found && keys[j] !in rest
      invariant forall k :: k in found ==> k in rest || k in keys
      decreases |rest|
    {
      var k :| k in rest;
      keys := keys + [k];
      rest := rest - {k};
    }
  }

  /** `build_report` without the file and text-block output: the lines of
      the report, the merged and usage-annotated result map, and the order
      its entries are listed in. */
  method BuildReport(lib: Library, rank: map<TreeId, nat>, mats: seq<Material>, showAttributes: bool, ts: string)
    returns (lines: seq<string>, found: map<NodeRef, Record>, keys: seq<NodeRef>, merged: map<NodeRef, Record>)
    requires Ranked(lib, rank)
    ensures CountUsable(lib, mats) == 0 ==> lines == NoMaterialsLines(ts) && keys == []
    ensures CountUsable(lib, mats) != 0 ==>
      && Merged(lib, rank, mats, |mats|, showAttributes, merged)
      && found == CollectGroupUsage(lib, merged, mats)
      && NoDup(keys) && (forall j :: 0 <= j < |keys| ==> keys[j] in found) && (forall k :: k in found ==> k in keys)
      && lines == ReportLines(ts, CountUsable(lib, mats), Entries(lib, found, keys))
  {
    var n := CountUsable(lib, mats);
    if n == 0 {
      lines := NoMaterialsLines(ts);
      found := map[];
      keys := [];
      merged := map[];
      return;
    }
    merged := MergeMaterials(lib, rank, mats, showAttributes);
    found := CollectGroupUsage(lib, merged, mats);
    keys := ListKeys(found);
    lines := ReportLines(ts, n, Entries(lib, found, keys));
  }

  /** What the report says of each listed node: it is a node of the
      library with the recorded type; a group node lists exactly the
      usable materials instantiating its payload, and as connected exactly
      those whose first instance is wired onwards; any other node lists
      none. */
  lemma MergedRecords(lib: Library, rank: map<TreeId, nat>, mats: seq<Material>, showAttributes: bool,
                      merged: map<NodeRef, Record>, k: NodeRef, x: string)
    requires Merged(lib, rank, mats, |mats|, showAttributes, merged)
    requires k in CollectGroupUsage(lib, merged, mats)
    ensures var rec := CollectGroupUsage(lib, merged, mats)[k];
      && NodeAt(lib, k).Some? && rec.typeTag == NodeAt(lib, k).value.typeTag
      && WellListed(rec)
      && (GroupPayload(lib, k).None? ==> rec.materials == [] && rec.connectedToOutput == [])
      && (GroupPayload(lib, k).Some? ==>
            (x in rec.materials <==>
             exists j :: 0 <= j < |mats| && mats[j].name == x && Instantiates(lib, mats[j], GroupPayload(lib, k).value)))
      && (GroupPayload(lib, k).Some? ==>
            (x in rec.connectedToOutput <==>
             exists j :: 0 <= j < |mats| && DecidesFor(lib, mats, j, x, GroupPayload(lib, k).value)
                         && FirstInstanceConnected(lib, mats[j], GroupPayload(lib, k).value)))
  {
    var fs := Founds(lib, rank, mats, showAttributes);
    assert Sourced(lib, rank, mats, fs, |mats|, showAttributes, k, merged[k]);
    var j := LastSource(fs, |mats|, k);
    PossibleRecordShape(lib, rank, mats[j].tree.value, mats[j].name, showAttributes, k, merged[k]);
    assert WellListed(merged[k]);
    CollectGroupUsageSpec(lib, merged, mats, k, x);
  }
}
