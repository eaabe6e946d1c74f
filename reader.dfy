/**
 * The SAIT raw-EMA reader of one speaker. Building it lists the speaker's
 * recordings and chooses the speaker's channel map; reading a recording turns
 * its payload into the standard table of (x, z) pairs for the tongue tip,
 * tongue body, tongue dorsum, lower jaw, upper lip and lower lip, or into the
 * nose table.
 */
module Reader {
  import opened EmaErrors
  import opened PyText
  import opened Frames
  import opened ChannelMaps
  import opened IndexListing

  /** The sensors of the standard table, in column order. */
  const StdSensors: seq<string> := ["TT", "TB", "TD", "LJ", "UL", "LL"]

  /** The (sensor, value) behind each column of the standard table: x then z of
      each sensor in turn, not all x then all z. */
  const StdColumns: seq<(string, string)> := [
    ("TT", "x"), ("TT", "z"), ("TB", "x"), ("TB", "z"), ("TD", "x"), ("TD", "z"),
    ("LJ", "x"), ("LJ", "z"), ("UL", "x"), ("UL", "z"), ("LL", "x"), ("LL", "z")]

  /** The columns of the nose table. */
  const NoseColumns: seq<(string, string)> := [("NOSE", "x"), ("NOSE", "z")]

  /** Positions of x and z among the values of a channel. */
  const XPos: nat := 0
  const ZPos: nat := 2

  /** `list.index`: the first position holding `x`. */
  function IndexOf(xs: seq<string>, x: string): (i: nat)
    requires x in xs
    ensures i < |xs| && xs[i] == x
    ensures forall j :: 0 <= j < i ==> xs[j] != x
  {
    if xs[0] == x then 0 else 1 + IndexOf(xs[1..], x)
  }

  class SaitRawEmaReader {
    var rawEmaDir: string
    var speakerName: string
    /** File extension of the raw recordings. */
    var rawEmaType: string
    /** How many recordings the index list keeps. */
    var emaNum: nat
    /** Indices (file names without extension) of the recordings. */
    var emaIndexList: seq<string>
    /** Sensor name to 1-based channel, for this speaker. */
    var rawEmaChannels: ChannelMap
    /** Order of the values within a channel. */
    var rawEmaValues: seq<string>

    /** A reader whose channel map and value list are those of its speaker. */
    ghost predicate Valid()
      reads this
    {
      ResolveChannels(speakerName) == Success(rawEmaChannels) && rawEmaValues == ValueNames
    }

    /** The attributes before the two setup steps run; the Python `None`s are
        the empty string, list and map, and zero. */
    constructor (rawEmaDir: string, speakerName: string)
      ensures this.rawEmaDir == rawEmaDir && this.speakerName == speakerName
      ensures rawEmaType == [] && emaNum == 0 && emaIndexList == []
      ensures rawEmaChannels == map[] && rawEmaValues == []
    {
      this.rawEmaDir := rawEmaDir;
      this.speakerName := speakerName;
      rawEmaType := [];
      emaNum := 0;
      emaIndexList := [];
      rawEmaChannels := map[];
      rawEmaValues := [];
    }

    /** `_setup_raw_EMA_list`, with the directory listing given as `dirListing`. */
    method SetupRawEmaList(dirListing: seq<string>)
      modifies this`rawEmaType, this`emaNum, this`emaIndexList
      ensures rawEmaType == PosExt && emaNum == EmaNum
      ensures emaIndexList == IndexList(dirListing, PosExt, EmaNum)
    {
      rawEmaType := ".pos";
      emaNum := 962;
      emaIndexList := IndexList(dirListing, rawEmaType, emaNum);
    }

    /** `_setup_raw_EMA_channels_and_values`: the value order is set first, then
        an unknown speaker is rejected, then the speaker's map is chosen. */
    method SetupChannelsAndValues() returns (o: Outcome)
      modifies this`rawEmaChannels, this`rawEmaValues
      ensures rawEmaValues == ValueNames
      ensures o.Pass? <==> ResolveChannels(speakerName).Success?
      ensures o.Pass? ==> Valid()
      ensures o.Fail? ==> o.error == UnknownSpeaker(speakerName) && rawEmaChannels == old(rawEmaChannels)
    {
      rawEmaValues := ["x", "y", "z", "phi", "theta", "rms", "extra"];
      if speakerName !in NormalSpeakers && speakerName !in IrregularSpeakers {
        return Fail(UnknownSpeaker(speakerName));
      }
      if speakerName in NormalSpeakers {
        rawEmaChannels := StdChannels;
        NormalSpeakersShareDefault(speakerName);
      } else if speakerName == "L_M002" {
        rawEmaChannels := LM002Channels;
      } else if speakerName == "L_M003" {
        rawEmaChannels := LM003Channels;
      } else if speakerName == "A_F001" {
        rawEmaChannels := AF001Channels;
      } else if speakerName == "L_F003" {
        rawEmaChannels := LF003Channels;
      }
      IrregularSpeakersMaps();
      return Pass;
    }

    /** `_get_channel_value_index`: the flat column of a sensor's value within
        a frame. */
    function ChannelValueIndex(sensor: string, value: string): (r: Result<int>)
      reads this
      ensures r.Success? <==> sensor in rawEmaChannels && value in rawEmaValues
      ensures sensor !in rawEmaChannels ==> r == Failure(KeyError(sensor))
      ensures sensor in rawEmaChannels && value !in rawEmaValues ==> r == Failure(ValueNotInList(value))
      ensures r.Success? && rawEmaValues == ValueNames ==>
        && r.value / ValuesPerChannel == rawEmaChannels[sensor] - 1
        && ValueNames[r.value % ValuesPerChannel] == value
    {
      if sensor !in rawEmaChannels then Failure(KeyError(sensor))
      else if value !in rawEmaValues then Failure(ValueNotInList(value))
      else
        var sensorIndex := rawEmaChannels[sensor] - 1;
        var valueIndex := IndexOf(rawEmaValues, value);
        Success(sensorIndex * 7 + valueIndex)
    }

    /** The lookup of one (sensor, value) column and the numpy index into the
        frame both succeed. */
    predicate Resolves(p: (string, string))
      reads this
    {
      ChannelValueIndex(p.0, p.1).Success? && ColumnPosition(ChannelValueIndex(p.0, p.1).value).Success?
    }

    /** The exception one column raises when it does not resolve. */
    function ColumnError(p: (string, string)): Error
      reads this
      requires !Resolves(p)
    {
      match ChannelValueIndex(p.0, p.1)
      case Failure(e) => e
      case Success(idx) => ColumnPosition(idx).error
    }

    /** The frame positions of a list of (sensor, value) columns, looked up in
        order: all resolve, or the first one that does not gives the error. */
    function ResolveColumns(pairs: seq<(string, string)>): (r: Result<seq<nat>>)
      reads this
      ensures r.Success? <==> forall j :: 0 <= j < |pairs| ==> Resolves(pairs[j])
      ensures r.Success? ==> |r.value| == |pairs| && forall j :: 0 <= j < |pairs| ==>
        ColumnPosition(ChannelValueIndex(pairs[j].0, pairs[j].1).value) == Success(r.value[j]) &&
        r.value[j] < FrameWidth
      ensures r.Failure? ==> exists j :: FirstFailure(pairs, j) && r.error == ColumnError(pairs[j])
    {
      if pairs == [] then Success([])
      else if !Resolves(pairs[0]) then
        assert FirstFailure(pairs, 0);
        Failure(ColumnError(pairs[0]))
      else
        var col := ColumnPosition(ChannelValueIndex(pairs[0].0, pairs[0].1).value).value;
        var rest := ResolveColumns(pairs[1..]);
        assert forall j :: 0 < j < |pairs| ==> pairs[j] == pairs[1..][j - 1];
        if rest.Failure? then
          ghost var j :| FirstFailure(pairs[1..], j) && rest.error == ColumnError(pairs[1..][j]);
          FirstFailureShift(pairs, j);
          Failure(rest.error)
        else
          Success([col] + rest.value)
    }

    /** Column `j` is the first of `pairs` that does not resolve. */
    ghost predicate FirstFailure(pairs: seq<(string, string)>, j: int)
      reads this
    {
      0 <= j < |pairs| && !Resolves(pairs[j]) && forall i :: 0 <= i < j ==> Resolves(pairs[i])
    }

    /** The first failure behind a resolving head is the first failure overall. */
    lemma FirstFailureShift(pairs: seq<(string, string)>, j: int)
      requires |pairs| > 0 && Resolves(pairs[0]) && FirstFailure(pairs[1..], j)
      ensures FirstFailure(pairs, j + 1)
    {
      forall i | 0 <= i < j + 1 ensures Resolves(pairs[i]) {
        if i > 0 { assert pairs[i] == pairs[1..][i - 1]; }
      }
    }

    /** Stacking the given columns of the frames a read produced: a failed
        read is passed on, so its error wins; then the column lookups. */
    function SelectTable<T>(read: Result<seq<seq<T>>>, pairs: seq<(string, string)>): (r: Result<seq<seq<T>>>)
      reads this
      requires read.Success? ==> AllFrames(read.value)
      ensures read.Failure? ==> r == read
      ensures read.Success? && ResolveColumns(pairs).Failure? ==> r == Failure(ResolveColumns(pairs).error)
      ensures r.Success? <==> read.Success? && ResolveColumns(pairs).Success?
      ensures r.Success? ==>
        var cols := ResolveColumns(pairs).value;
        && |r.value| == |read.value|
        && forall f, j :: 0 <= f < |read.value| && 0 <= j < |pairs| ==>
             |r.value[f]| == |pairs| && r.value[f][j] == read.value[f][cols[j]]
    {
      match read
      case Failure(e) => Failure(e)
      case Success(frames) =>
        match ResolveColumns(pairs)
        case Failure(e) => Failure(e)
        case Success(cols) => Success(SelectColumns(frames, cols))
    }

    /** `get_std_EMA`: the payload's frames, then the twelve standard columns. */
    function GetStdEma<T>(file: seq<byte>, cellOf: seq<byte> -> T): (r: Result<seq<seq<T>>>)
      reads this
      ensures ReadRawEma(file, cellOf).Failure? ==> r == ReadRawEma(file, cellOf)
      ensures r.Success? ==> ReadRawEma(file, cellOf).Success? && |r.value| == |ReadRawEma(file, cellOf).value|
      ensures r.Success? ==> forall f :: 0 <= f < |r.value| ==> |r.value[f]| == |StdColumns|
    {
      SelectTable(ReadRawEma(file, cellOf), StdColumns)
    }

    /** `get_nose_EMA_by_path`: the payload's frames, then NOSE x and NOSE z. */
    function GetNoseEma<T>(file: seq<byte>, cellOf: seq<byte> -> T): (r: Result<seq<seq<T>>>)
      reads this
      ensures ReadRawEma(file, cellOf).Failure? ==> r == ReadRawEma(file, cellOf)
      ensures r.Success? ==> ReadRawEma(file, cellOf).Success? && |r.value| == |ReadRawEma(file, cellOf).value|
      ensures r.Success? ==> forall f :: 0 <= f < |r.value| ==> |r.value[f]| == |NoseColumns|
    {
      SelectTable(ReadRawEma(file, cellOf), NoseColumns)
    }
  }

  /** Constructing a reader: the base constructor's attributes, the index list,
      then the channel map, whose failure is the constructor's exception. */
  method NewSaitReader(rawEmaDir: string, dirListing: seq<string>, speakerName: string)
    returns (r: Result<SaitRawEmaReader>)
    ensures r.Failure? <==> speakerName !in NormalSpeakers && speakerName !in IrregularSpeakers
    ensures r.Failure? ==> r.error == UnknownSpeaker(speakerName)
    ensures r.Success? ==> fresh(r.value) && r.value.Valid()
    ensures r.Success? ==> r.value.speakerName == speakerName && r.value.rawEmaDir == rawEmaDir
    ensures r.Success? ==> r.value.rawEmaType == PosExt && r.value.emaNum == EmaNum
    ensures r.Success? ==> r.value.emaIndexList == IndexList(dirListing, PosExt, EmaNum)
  {
    var reader := new SaitRawEmaReader(rawEmaDir, speakerName);
    reader.SetupRawEmaList(dirListing);
    var o := reader.SetupChannelsAndValues();
    assert o.Pass? <==> speakerName in NormalSpeakers || speakerName in IrregularSpeakers;
    if o.Fail? {
      return Failure(o.error);
    }
    return Success(reader);
  }

  /** A reader set up for its speaker holds a well-formed map. */
  lemma ValidMapWellFormed(rd: SaitRawEmaReader)
    requires rd.Valid()
    ensures WellFormedMap(rd.rawEmaChannels) && rd.rawEmaValues == ValueNames
  {
    ResolvedMapWellFormed(rd.speakerName);
  }

  /** Under a well-formed map, every sensor's every value has a column inside
      the 112-wide frame. */
  lemma ColumnIndexInFrame(rd: SaitRawEmaReader, sensor: string, value: string)
    requires WellFormedMap(rd.rawEmaChannels) && rd.rawEmaValues == ValueNames
    requires sensor in SensorNames && value in ValueNames
    ensures rd.ChannelValueIndex(sensor, value).Success?
    ensures 0 <= rd.ChannelValueIndex(sensor, value).value < FrameWidth
  {
    assert 1 <= rd.rawEmaChannels[sensor] <= ChannelCount;
  }

  /** Two different (sensor, value) pairs never share a column: a well-formed
      map puts no two sensors on one channel. */
  lemma ColumnsDistinct(rd: SaitRawEmaReader, s1: string, v1: string, s2: string, v2: string)
    requires WellFormedMap(rd.rawEmaChannels) && rd.rawEmaValues == ValueNames
    requires s1 in SensorNames && s2 in SensorNames && v1 in ValueNames && v2 in ValueNames
    requires (s1, v1) != (s2, v2)
    ensures rd.ChannelValueIndex(s1, v1).value != rd.ChannelValueIndex(s2, v2).value
  {
    var a := rd.ChannelValueIndex(s1, v1).value;
    var b := rd.ChannelValueIndex(s2, v2).value;
    assert a / ValuesPerChannel == rd.rawEmaChannels[s1] - 1 && ValueNames[a % ValuesPerChannel] == v1;
    assert b / ValuesPerChannel == rd.rawEmaChannels[s2] - 1 && ValueNames[b % ValuesPerChannel] == v2;
    if s1 == s2 {
      assert v1 != v2;
    } else {
      assert rd.rawEmaChannels[s1] != rd.rawEmaChannels[s2];
    }
  }

  /** The column of a channel's value: channel c (1-based) and value position
      v give column (c - 1) * 7 + v. */
  function ColumnOf(m: ChannelMap, sensor: string, valuePos: nat): int
    requires sensor in m
  {
    (m[sensor] - 1) * ValuesPerChannel + valuePos
  }

  /** Under a well-formed map every listed (sensor, value) column resolves. */
  lemma ColumnsResolve(rd: SaitRawEmaReader, pairs: seq<(string, string)>)
    requires WellFormedMap(rd.rawEmaChannels) && rd.rawEmaValues == ValueNames
    requires forall j :: 0 <= j < |pairs| ==> pairs[j].0 in SensorNames && pairs[j].1 in ValueNames
    ensures rd.ResolveColumns(pairs).Success?
  {
    forall j | 0 <= j < |pairs| ensures rd.Resolves(pairs[j]) {
      ColumnIndexInFrame(rd, pairs[j].0, pairs[j].1);
    }
  }

  /** Under a well-formed map the standard columns resolve: column 2k is x and
      column 2k + 1 is z of the k-th standard sensor's channel. */
  lemma StdColumnsResolve(rd: SaitRawEmaReader)
    requires WellFormedMap(rd.rawEmaChannels) && rd.rawEmaValues == ValueNames
    ensures rd.ResolveColumns(StdColumns).Success?
    ensures var cols := rd.ResolveColumns(StdColumns).value;
      forall k :: 0 <= k < |StdSensors| ==>
        && cols[2 * k] == ColumnOf(rd.rawEmaChannels, StdSensors[k], XPos)
        && cols[2 * k + 1] == ColumnOf(rd.rawEmaChannels, StdSensors[k], ZPos)
  {
    ColumnsResolve(rd, StdColumns);
    var cols := rd.ResolveColumns(StdColumns).value;
    forall k | 0 <= k < |StdSensors|
      ensures cols[2 * k] == ColumnOf(rd.rawEmaChannels, StdSensors[k], XPos)
      ensures cols[2 * k + 1] == ColumnOf(rd.rawEmaChannels, StdSensors[k], ZPos)
    {
      StdColumnPair(k);
      SensorColumn(rd, StdSensors[k], "x", XPos, cols[2 * k]);
      SensorColumn(rd, StdSensors[k], "z", ZPos, cols[2 * k + 1]);
    }
  }

  lemma StdColumnPair(k: nat)
    requires k < |StdSensors|
    ensures StdColumns[2 * k] == (StdSensors[k], "x") && StdColumns[2 * k + 1] == (StdSensors[k], "z")
    ensures StdSensors[k] in SensorNames
  {
  }

  /** A resolved column is the value's position within its sensor's channel. */
  lemma SensorColumn(rd: SaitRawEmaReader, sensor: string, value: string, pos: nat, col: nat)
    requires WellFormedMap(rd.rawEmaChannels) && rd.rawEmaValues == ValueNames
    requires sensor in SensorNames && pos < |ValueNames| && ValueNames[pos] == value
    requires ColumnPosition(rd.ChannelValueIndex(sensor, value).value) == Success(col)
    ensures col == ColumnOf(rd.rawEmaChannels, sensor, pos)
  {
    ColumnIndexInFrame(rd, sensor, value);
    var idx := rd.ChannelValueIndex(sensor, value).value;
    assert col == idx;
    var within := idx % ValuesPerChannel;
    ValueNamesDistinct(within, pos);
    assert idx == (idx / ValuesPerChannel) * ValuesPerChannel + within;
  }

  /** The seven value kinds are pairwise different. */
  lemma ValueNamesDistinct(i: nat, j: nat)
    requires i < |ValueNames| && j < |ValueNames| && ValueNames[i] == ValueNames[j]
    ensures i == j
  {
  }

  /** `get_std_EMA` on a reader with a well-formed map: it fails exactly when
      the read fails, and then with the read's error; otherwise it has one row
      of 12 per frame, and row f holds, for the k-th standard sensor, frame f's
      x at column 2k and its z at column 2k + 1. */
  lemma StdEmaLayout<T>(rd: SaitRawEmaReader, file: seq<byte>, cellOf: seq<byte> -> T)
    requires WellFormedMap(rd.rawEmaChannels) && rd.rawEmaValues == ValueNames
    ensures ReadRawEma(file, cellOf).Failure? ==> rd.GetStdEma(file, cellOf) == ReadRawEma(file, cellOf)
    ensures rd.GetStdEma(file, cellOf).Success? <==> ReadRawEma(file, cellOf).Success?
    ensures rd.GetStdEma(file, cellOf).Success? ==>
      StdRows(rd.rawEmaChannels, ReadRawEma(file, cellOf).value, rd.GetStdEma(file, cellOf).value)
  {
    StdTableLayout(rd, ReadRawEma(file, cellOf));
  }

  /** Row f of `rows` holds, for the k-th standard sensor, frame f's x at column
      2k and its z at column 2k + 1, and nothing else. */
  ghost predicate StdRows<T>(m: ChannelMap, frames: seq<seq<T>>, rows: seq<seq<T>>)
    requires WellFormedMap(m) && AllFrames(frames)
  {
    && |rows| == |frames|
    && forall f, k :: 0 <= f < |rows| && 0 <= k < |StdSensors| ==>
      && |rows[f]| == 2 * |StdSensors|
      && rows[f][2 * k] == frames[f][ColumnOf(m, StdSensors[k], XPos)]
      && rows[f][2 * k + 1] == frames[f][ColumnOf(m, StdSensors[k], ZPos)]
  }

  /** The standard columns picked from any read. */
  lemma StdTableLayout<T>(rd: SaitRawEmaReader, read: Result<seq<seq<T>>>)
    requires WellFormedMap(rd.rawEmaChannels) && rd.rawEmaValues == ValueNames
    requires read.Success? ==> AllFrames(read.value)
    ensures rd.SelectTable(read, StdColumns).Success? <==> read.Success?
    ensures rd.SelectTable(read, StdColumns).Success? ==>
      StdRows(rd.rawEmaChannels, read.value, rd.SelectTable(read, StdColumns).value)
  {
    StdColumnsResolve(rd);
  }

  /** The standard table's frame columns under the default wiring. */
  const DefaultStdColumns: seq<nat> := [35, 37, 28, 30, 21, 23, 42, 44, 56, 58, 49, 51]

  /** With the default wiring (the map every speaker of the normal list gets),
      the standard table takes the frame columns 35, 37 (TT), 28, 30 (TB),
      21, 23 (TD), 42, 44 (LJ), 56, 58 (UL) and 49, 51 (LL). */
  lemma DefaultColumnOrder(rd: SaitRawEmaReader)
    requires rd.rawEmaChannels == StdChannels && rd.rawEmaValues == ValueNames
    ensures rd.ResolveColumns(StdColumns) == Success(DefaultStdColumns)
  {
    DefaultSensorColumns(rd, 0);
    var cols := rd.ResolveColumns(StdColumns).value;
    assert |cols| == |DefaultStdColumns|;
    forall j | 0 <= j < |DefaultStdColumns| ensures cols[j] == DefaultStdColumns[j] {
      var k := j / 2;
      assert j == 2 * k || j == 2 * k + 1;
      DefaultSensorColumns(rd, k);
    }
    assert cols == DefaultStdColumns;
  }

  /** The two default-wiring columns of the k-th standard sensor. */
  lemma DefaultSensorColumns(rd: SaitRawEmaReader, k: nat)
    requires rd.rawEmaChannels == StdChannels && rd.rawEmaValues == ValueNames
    requires k < |StdSensors|
    ensures rd.ResolveColumns(StdColumns).Success?
    ensures rd.ResolveColumns(StdColumns).value[2 * k] == DefaultStdColumns[2 * k]
    ensures rd.ResolveColumns(StdColumns).value[2 * k + 1] == DefaultStdColumns[2 * k + 1]
  {
    StdChannelsWellFormed();
    StdColumnsResolve(rd);
    DefaultChannelColumns(k);
  }

  lemma DefaultChannelColumns(k: nat)
    requires k < |StdSensors|
    ensures StdSensors[k] in StdChannels
    ensures ColumnOf(StdChannels, StdSensors[k], XPos) == DefaultStdColumns[2 * k]
    ensures ColumnOf(StdChannels, StdSensors[k], ZPos) == DefaultStdColumns[2 * k + 1]
  {
    if k == 0 { assert StdSensors[k] == "TT"; }
    else if k == 1 { assert StdSensors[k] == "TB"; }
    else if k == 2 { assert StdSensors[k] == "TD"; }
    else if k == 3 { assert StdSensors[k] == "LJ"; }
    else if k == 4 { assert StdSensors[k] == "UL"; }
    else { assert StdSensors[k] == "LL"; }
  }

  /** `get_nose_EMA_by_path` on a reader with a well-formed map: it fails
      exactly when the read fails, and then with the read's error; otherwise row
      f is frame f's NOSE x and NOSE z. */
  lemma NoseEmaLayout<T>(rd: SaitRawEmaReader, file: seq<byte>, cellOf: seq<byte> -> T)
    requires WellFormedMap(rd.rawEmaChannels) && rd.rawEmaValues == ValueNames
    ensures ReadRawEma(file, cellOf).Failure? ==> rd.GetNoseEma(file, cellOf) == ReadRawEma(file, cellOf)
    ensures rd.GetNoseEma(file, cellOf).Success? <==> ReadRawEma(file, cellOf).Success?
    ensures rd.GetNoseEma(file, cellOf).Success? ==>
      NoseRows(rd.rawEmaChannels, ReadRawEma(file, cellOf).value, rd.GetNoseEma(file, cellOf).value)
  {
    NoseTableLayout(rd, ReadRawEma(file, cellOf));
  }

  /** Row f of `rows` is frame f's NOSE x and NOSE z. */
  ghost predicate NoseRows<T>(m: ChannelMap, frames: seq<seq<T>>, rows: seq<seq<T>>)
    requires WellFormedMap(m) && AllFrames(frames)
  {
    && |rows| == |frames|
    && forall f :: 0 <= f < |rows| ==>
      && |rows[f]| == 2
      && rows[f][0] == frames[f][ColumnOf(m, "NOSE", XPos)]
      && rows[f][1] == frames[f][ColumnOf(m, "NOSE", ZPos)]
  }

  /** The nose columns picked from any read. */
  lemma NoseTableLayout<T>(rd: SaitRawEmaReader, read: Result<seq<seq<T>>>)
    requires WellFormedMap(rd.rawEmaChannels) && rd.rawEmaValues == ValueNames
    requires read.Success? ==> AllFrames(read.value)
    ensures rd.SelectTable(read, NoseColumns).Success? <==> read.Success?
    ensures rd.SelectTable(read, NoseColumns).Success? ==>
      NoseRows(rd.rawEmaChannels, read.value, rd.SelectTable(read, NoseColumns).value)
  {
    NoseColumnsResolve(rd);
  }

  /** Under a well-formed map the nose columns resolve to NOSE x and NOSE z. */
  lemma NoseColumnsResolve(rd: SaitRawEmaReader)
    requires WellFormedMap(rd.rawEmaChannels) && rd.rawEmaValues == ValueNames
    ensures rd.ResolveColumns(NoseColumns).Success?
    ensures rd.ResolveColumns(NoseColumns).value
         == [ColumnOf(rd.rawEmaChannels, "NOSE", XPos), ColumnOf(rd.rawEmaChannels, "NOSE", ZPos)]
  {
    ColumnsResolve(rd, NoseColumns);
    var cols := rd.ResolveColumns(NoseColumns).value;
    SensorColumn(rd, "NOSE", "x", XPos, cols[0]);
    SensorColumn(rd, "NOSE", "z", ZPos, cols[1]);
  }
}
