/**
 * Recording metadata read from a demo file name of the shape
 * `<mode>_<map segments…>_<month>_<day>_<year>_<hour>_<minute>.<extension>`.
 */
module FileName {
  import opened Wrappers
  import opened Text
  import opened Calendar

  /** What a demo file name tells: game mode, map and the minute the recording started. */
  datatype Meta = Meta(mode: string, mapName: string, start: DateTime)

  /** Mode, at least one map segment, and the five date/time fields. */
  const MinTokens: nat := 7

  /**
   * `Path.GetFileNameWithoutExtension` of a bare file name: everything before the
   * last `.`, or the whole name when there is none.
   */
  function StripExtension(name: string): string {
    match LastIndexOf(name, '.')
    case None => name
    case Some(i) => name[..i]
  }

  /** The name without extension is a prefix, cut at a dot after which no dot follows. */
  lemma StripExtensionCut(name: string)
    ensures var r := StripExtension(name);
      && |r| <= |name| && r == name[..|r|]
      && ('.' !in name ==> r == name)
      && ('.' in name ==> |r| < |name| && name[|r|] == '.' && '.' !in name[|r| + 1..])
  {
  }

  /** The `_`-separated tokens of the name without its extension. */
  function Tokens(name: string): (parts: seq<string>)
    ensures |parts| >= 1
  {
    Split(StripExtension(name), '_')
  }

  /** `int.Parse` applied to each token in turn; `None` as soon as one of them throws. */
  function ParseInts(tokens: seq<string>): (r: Option<seq<int>>)
    ensures r.Some? ==> |r.value| == |tokens|
  {
    if |tokens| == 0 then Some([])
    else
      var head := ParseInt32(tokens[0]);
      var tail := ParseInts(tokens[1..]);
      if head.None? || tail.None? then None else Some([head.value] + tail.value)
  }

  /** The tokens read all succeed exactly when each one does, and give each token's value. */
  lemma {:induction false} ParseIntsEach(tokens: seq<string>)
    ensures ParseInts(tokens).Some? <==> forall j :: 0 <= j < |tokens| ==> ParseInt32(tokens[j]).Some?
    ensures ParseInts(tokens).Some? ==>
      forall j :: 0 <= j < |tokens| ==> ParseInt32(tokens[j]) == Some(ParseInts(tokens).value[j])
  {
    if |tokens| > 0 {
      var tail := tokens[1..];
      ParseIntsEach(tail);
      assert forall j :: 1 <= j < |tokens| ==> tokens[j] == tail[j - 1];
    }
  }

  /**
   * The last five tokens read with `int.Parse` as month, day, year, hour and
   * minute, before the `DateTime` constructor checks their ranges.
   */
  function TrailingFields(parts: seq<string>): Option<Timestamp>
    requires |parts| >= 5
  {
    match ParseInts(parts[|parts| - 5..])
    case None => None
    case Some(v) => Some(Timestamp(v[2], v[0], v[1], v[3], v[4]))
  }

  /**
   * `ParseFilename`: the metadata of a demo file, or `None` when the name has fewer
   * than seven tokens, a trailing token is not an `int`, or the date/time does not
   * exist. It never returns a partially filled record.
   */
  function ParseFilename(name: string): (r: Option<Meta>)
    ensures r.Some? ==> |Tokens(name)| >= MinTokens
    ensures r.Some? ==> r.value.mode == Tokens(name)[0]
    ensures r.Some? ==> r.value.mapName == Join(Tokens(name)[1..|Tokens(name)| - 5], "_")
    ensures r.Some? ==> TrailingFields(Tokens(name)) == Some(r.value.start)
  {
    var parts := Tokens(name);
    var len := |parts|;
    if len < MinTokens then None
    else
      var mode := parts[0];
      var mapName := Join(parts[1..len - 5], "_");
      match TrailingFields(parts)
      case None => None
      case Some(start) => if ValidDate(start) then Some(Meta(mode, mapName, start)) else None
  }

  /** The five trailing tokens a recording of `t` carries, month first. */
  function DateTokens(t: DateTime): (parts: seq<string>)
    ensures |parts| == 5
    ensures forall k :: 0 <= k < 5 ==> '_' !in parts[k]
  {
    var p := [Decimal(t.month), Decimal(t.day), Decimal(t.year), Decimal(t.hour), Decimal(t.minute)];
    assert forall k :: 0 <= k < 5 ==> AllDigits(p[k]);
    p
  }

  /** The file name the recorder writes for `m`, with extension `ext`. */
  function FormatFilename(m: Meta, ext: string): string {
    m.mode + "_" + m.mapName + "_" + Join(DateTokens(m.start), "_") + "." + ext
  }

  /** The extension is cut at the last dot, so an extension without dots is removed whole. */
  lemma StripAppendedExtension(base: string, ext: string)
    requires '.' !in ext
    ensures StripExtension(base + "." + ext) == base
  {
    var name := base + "." + ext;
    StripExtensionCut(name);
    assert name[|base|] == '.';
    assert forall j :: |base| < j < |name| ==> name[j] == ext[j - |base| - 1];
    var r := StripExtension(name);
    assert forall j :: |r| < j < |name| ==> name[j] == name[|r| + 1..][j - |r| - 1];
    assert |r| == |base|;
    assert r == name[..|base|] == base;
  }

  lemma JoinedAssoc(a: string, b: string, c: string)
    ensures a + "_" + b + "_" + c == a + ['_'] + (b + ['_'] + c)
  {
  }

  /** How the recorder's name splits: the mode, the map's own segments, the date fields. */
  lemma SplitFormatted(mode: string, mapName: string, dates: seq<string>)
    requires '_' !in mode
    requires |dates| >= 1 && forall k :: 0 <= k < |dates| ==> '_' !in dates[k]
    ensures Split(mode + "_" + mapName + "_" + Join(dates, "_"), '_')
         == [mode] + Split(mapName, '_') + dates
  {
    var digits := Join(dates, "_");
    var tail := mapName + ['_'] + digits;
    JoinedAssoc(mode, mapName, digits);
    var whole := Split(mode + ['_'] + tail, '_');
    var left := Split(mode, '_');
    var right := Split(tail, '_');
    SplitAround(mode, tail, '_');
    assert whole == left + right;
    assert left == [mode];
    var m := Split(mapName, '_');
    var d := Split(digits, '_');
    SplitAround(mapName, digits, '_');
    assert right == m + d;
    SplitJoin(dates, '_');
    assert d == dates;
  }

  lemma TokensOfFormat(m: Meta, ext: string)
    requires '_' !in m.mode
    requires '.' !in ext
    ensures Tokens(FormatFilename(m, ext)) == [m.mode] + Split(m.mapName, '_') + DateTokens(m.start)
  {
    var base := m.mode + "_" + m.mapName + "_" + Join(DateTokens(m.start), "_");
    StripAppendedExtension(base, ext);
    SplitFormatted(m.mode, m.mapName, DateTokens(m.start));
  }

  /** One more token written by the recorder in front of tokens that already read back. */
  lemma ParseIntsCons(tokens: seq<string>, n: nat, rest: seq<int>)
    requires |tokens| >= 1 && n <= Int32Max && tokens[0] == Decimal(n)
    requires ParseInts(tokens[1..]) == Some(rest)
    ensures ParseInts(tokens) == Some([n] + rest)
  {
    ParseDecimal(n);
  }

  /** The date fields the recorder writes read back as the same minute. */
  lemma TrailingFieldsOfDates(parts: seq<string>, t: DateTime)
    requires |parts| >= 5 && parts[|parts| - 5..] == DateTokens(t)
    ensures TrailingFields(parts) == Some(t)
  {
    var dates := DateTokens(t);
    assert dates[4..][1..] == [];
    assert dates[3..][1..] == dates[4..];
    assert dates[2..][1..] == dates[3..];
    assert dates[1..][1..] == dates[2..];
    ParseIntsCons(dates[4..], t.minute, []);
    assert [t.minute] + [] == [t.minute];
    ParseIntsCons(dates[3..], t.hour, [t.minute]);
    assert [t.hour] + [t.minute] == [t.hour, t.minute];
    ParseIntsCons(dates[2..], t.year, [t.hour, t.minute]);
    assert [t.year] + [t.hour, t.minute] == [t.year, t.hour, t.minute];
    ParseIntsCons(dates[1..], t.day, [t.year, t.hour, t.minute]);
    assert [t.day] + [t.year, t.hour, t.minute] == [t.day, t.year, t.hour, t.minute];
    ParseIntsCons(dates, t.month, [t.day, t.year, t.hour, t.minute]);
  }

  /** The five trailing tokens each read as their field of the start minute. */
  lemma TrailingFieldsEach(parts: seq<string>, t: Timestamp)
    requires |parts| >= 5 && TrailingFields(parts) == Some(t)
    ensures var n := |parts|;
      && ParseInt32(parts[n - 5]) == Some(t.month)
      && ParseInt32(parts[n - 4]) == Some(t.day)
      && ParseInt32(parts[n - 3]) == Some(t.year)
      && ParseInt32(parts[n - 2]) == Some(t.hour)
      && ParseInt32(parts[n - 1]) == Some(t.minute)
  {
    var n := |parts|;
    var dates := parts[n - 5..];
    ParseIntsEach(dates);
    assert dates[0] == parts[n - 5] && dates[1] == parts[n - 4] && dates[2] == parts[n - 3];
    assert dates[3] == parts[n - 2] && dates[4] == parts[n - 1];
  }

  /** A head, a middle and a tail of pieces, joined: the three parts with a separator between. */
  lemma JoinThree(head: string, mid: seq<string>, tail: seq<string>, sep: string)
    requires |mid| >= 1 && |tail| >= 1
    ensures Join([head] + mid + tail, sep) == head + sep + (Join(mid, sep) + sep + Join(tail, sep))
  {
    assert [head] + mid + tail == [head] + (mid + tail);
    JoinCons(head, mid + tail, sep);
    JoinAppend(mid, tail, sep);
  }

  /**
   * What a successful parse read: a mode free of `_`, and the name without its
   * extension is that mode, the map and the five date tokens joined by `_`, each
   * date token reading as its field of the start minute.
   */
  lemma ParseFilenameParts(name: string)
    requires ParseFilename(name).Some?
    ensures var m := ParseFilename(name).value;
      var parts := Tokens(name);
      var n := |parts|;
      && '_' !in m.mode
      && StripExtension(name) == m.mode + "_" + (m.mapName + "_" + Join(parts[n - 5..], "_"))
      && ParseInt32(parts[n - 5]) == Some(m.start.month)
      && ParseInt32(parts[n - 4]) == Some(m.start.day)
      && ParseInt32(parts[n - 3]) == Some(m.start.year)
      && ParseInt32(parts[n - 2]) == Some(m.start.hour)
      && ParseInt32(parts[n - 1]) == Some(m.start.minute)
  {
    var m := ParseFilename(name).value;
    var stem := StripExtension(name);
    var parts := Tokens(name);
    var n := |parts|;
    SplitPieces(stem, '_');
    assert '_' !in parts[0];
    JoinSplit(stem, '_');
    assert parts == [parts[0]] + parts[1..n - 5] + parts[n - 5..];
    JoinThree(parts[0], parts[1..n - 5], parts[n - 5..], "_");
    TrailingFieldsEach(parts, m.start);
  }

  /**
   * Round trip: a name written from a mode without `_`, any map and a valid
   * date/time parses back to exactly that mode, map and start minute.
   */
  lemma ParseFormat(m: Meta, ext: string)
    requires '_' !in m.mode
    requires '.' !in ext
    ensures ParseFilename(FormatFilename(m, ext)) == Some(m)
  {
    var mapParts := Split(m.mapName, '_');
    var parts := Tokens(FormatFilename(m, ext));
    TokensOfFormat(m, ext);
    var len := |parts|;
    assert parts[1..len - 5] == mapParts;
    assert parts[len - 5..] == DateTokens(m.start);
    JoinSplit(m.mapName, '_');
    TrailingFieldsOfDates(parts, m.start);
  }

  /** A name (extension removed) with fewer than six underscores is never a demo. */
  lemma FewUnderscoresRejected(name: string)
    requires Count(StripExtension(name), '_') < MinTokens - 1
    ensures ParseFilename(name) == None
  {
    SplitLength(StripExtension(name), '_');
  }

  /**
   * A trailing token that `int.Parse` rejects makes the whole name unparsable:
   * a character other than digits, signs and white space (`Text.ParseInt32Shape`),
   * a misplaced sign, or a value outside the 32-bit range (`Text.OverflowUnparsable`).
   */
  lemma UnparsableFieldRejected(name: string, k: nat)
    requires |Tokens(name)| >= MinTokens
    requires 1 <= k <= 5
    requires ParseInt32(Tokens(name)[|Tokens(name)| - k]).None?
    ensures ParseFilename(name) == None
  {
    var parts := Tokens(name);
    var len := |parts|;
    ParseIntsEach(parts[len - 5..]);
    assert parts[len - 5..][5 - k] == parts[len - k];
  }

  /** Numbers that name no real minute (30 February, hour 24, …) make the name unparsable. */
  lemma InvalidDateRejected(name: string, t: Timestamp)
    requires |Tokens(name)| >= MinTokens
    requires TrailingFields(Tokens(name)) == Some(t)
    requires !ValidDate(t)
    ensures ParseFilename(name) == None
  {
  }

  /** The name written for `m`, once its date fields are known as text. */
  lemma FormatWithDates(m: Meta, ext: string, dates: string)
    requires Join(DateTokens(m.start), "_") == dates
    ensures FormatFilename(m, ext) == m.mode + "_" + m.mapName + "_" + dates + "." + ext
  {
  }

  lemma NuketownDates()
    ensures Join(DateTokens(Timestamp(2025, 12, 10, 4, 4)), "_") == "12_10_2025_4_4"
  {
  }

  lemma NuketownName()
    ensures "tdm" + "_" + "mp_nuketown_2020" + "_" + "12_10_2025_4_4" + "." + "demo"
         == "tdm_mp_nuketown_2020_12_10_2025_4_4.demo"
  {
    assert "tdm" + "_" + "mp_nuketown_2020" == "tdm_mp_nuketown_2020";
    assert "12_10_2025_4_4" + "." + "demo" == "12_10_2025_4_4.demo";
    assert "tdm_mp_nuketown_2020" + "_" + "12_10_2025_4_4.demo" == "tdm_mp_nuketown_2020_12_10_2025_4_4.demo";
  }

  /** The first example recording name in the parser's documentation. */
  lemma NuketownExample()
    ensures ParseFilename("tdm_mp_nuketown_2020_12_10_2025_4_4.demo")
         == Some(Meta("tdm", "mp_nuketown_2020", Timestamp(2025, 12, 10, 4, 4)))
  {
    var m := Meta("tdm", "mp_nuketown_2020", Timestamp(2025, 12, 10, 4, 4));
    NuketownDates();
    FormatWithDates(m, "demo", "12_10_2025_4_4");
    NuketownName();
    ParseFormat(m, "demo");
  }

  lemma FiringRangeDates()
    ensures Join(DateTokens(Timestamp(2025, 12, 10, 3, 50)), "_") == "12_10_2025_3_50"
  {
  }

  lemma FiringRangeName()
    ensures "sd" + "_" + "mp_firingrange" + "_" + "12_10_2025_3_50" + "." + "demo"
         == "sd_mp_firingrange_12_10_2025_3_50.demo"
  {
    assert "sd" + "_" + "mp_firingrange" == "sd_mp_firingrange";
    assert "12_10_2025_3_50" + "." + "demo" == "12_10_2025_3_50.demo";
    assert "sd_mp_firingrange" + "_" + "12_10_2025_3_50.demo" == "sd_mp_firingrange_12_10_2025_3_50.demo";
  }

  /** The second example: a single-segment map and a two-digit minute. */
  lemma FiringRangeExample()
    ensures ParseFilename("sd_mp_firingrange_12_10_2025_3_50.demo")
         == Some(Meta("sd", "mp_firingrange", Timestamp(2025, 12, 10, 3, 50)))
  {
    var m := Meta("sd", "mp_firingrange", Timestamp(2025, 12, 10, 3, 50));
    FiringRangeDates();
    FormatWithDates(m, "demo", "12_10_2025_3_50");
    FiringRangeName();
    ParseFormat(m, "demo");
  }
}
