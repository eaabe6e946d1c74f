/**
 * The static registry of sensor-to-channel maps of the SAIT EMA recordings.
 * Fourteen speakers share one default map; four speakers had their sensors
 * wired to other channels. L_M002 and L_M003 share one such map, and A_F001
 * and L_F003 have one each; an irregular map replaces the default as a whole.
 */
module ChannelMaps {
  import opened EmaErrors
  import opened Frames

  /** Sensor name to 1-based physical channel. */
  type ChannelMap = map<string, int>

  /** The nine tracked sensors: nose, left and right ear, tongue dorsum, body and
      tip, lower jaw, lower and upper lip. */
  const SensorNames: set<string> := {"NOSE", "LE", "RE", "TD", "TB", "TT", "LJ", "LL", "UL"}

  /** The seven values recorded per channel, in their order within the channel. */
  const ValueNames: seq<string> := ["x", "y", "z", "phi", "theta", "rms", "extra"]

  const StdChannels: ChannelMap := map[
    "NOSE" := 1, "LE" := 2, "RE" := 3,
    "TD" := 4, "TB" := 5, "TT" := 6,
    "LJ" := 7, "LL" := 8, "UL" := 9]

  const NormalSpeakers: seq<string> := [
    "F001", "F002", "F003", "F004", "F005",
    "M001", "M002", "M003", "M004", "M005",
    "L_M001", "L_F001", "L_F002", "A_M001"]

  const IrregularSpeakers: seq<string> := ["L_M002", "L_M003", "A_F001", "L_F003"]

  const LM002Channels: ChannelMap := map[
    "NOSE" := 11, "LE" := 12, "RE" := 13,
    "TD" := 14, "TB" := 5, "TT" := 6,
    "LJ" := 7, "LL" := 8, "UL" := 9]

  /** L_M003 was recorded with the same wiring as L_M002. */
  const LM003Channels: ChannelMap := LM002Channels

  const AF001Channels: ChannelMap := map[
    "NOSE" := 11, "LE" := 12, "RE" := 13,
    "TD" := 14, "TB" := 10, "TT" := 16,
    "LJ" := 7, "LL" := 8, "UL" := 9]

  const LF003Channels: ChannelMap := map[
    "NOSE" := 1, "LE" := 5, "RE" := 3,
    "TD" := 11, "TB" := 10, "TT" := 12,
    "LJ" := 7, "LL" := 8, "UL" := 9]

  /** The map a speaker's recordings use, chosen as the reader's setup step
      chooses it: an unlisted speaker is an error, checked before any map is
      picked; the normal list comes first, then each irregular speaker. */
  function ResolveChannels(speaker: string): (r: Result<ChannelMap>)
    ensures r.Success? <==> speaker in NormalSpeakers || speaker in IrregularSpeakers
    ensures r.Failure? ==> r.error == UnknownSpeaker(speaker)
  {
    if speaker !in NormalSpeakers && speaker !in IrregularSpeakers then Failure(UnknownSpeaker(speaker))
    else if speaker in NormalSpeakers then Success(StdChannels)
    else if speaker == "L_M002" then Success(LM002Channels)
    else if speaker == "L_M003" then Success(LM003Channels)
    else if speaker == "A_F001" then Success(AF001Channels)
    else Success(LF003Channels)
  }

  /** A usable channel map: exactly the nine sensors, each on one of the 16
      channels, no two sensors on the same channel. */
  ghost predicate WellFormedMap(m: ChannelMap)
  {
    && m.Keys == SensorNames
    && (forall s :: s in m ==> 1 <= m[s] <= ChannelCount)
    && (forall s, t :: s in m && t in m && s != t ==> m[s] != m[t])
  }

  lemma StdChannelsWellFormed()
    ensures WellFormedMap(StdChannels)
  {
    assert StdChannels.Keys == SensorNames;
    assert forall s :: s in StdChannels ==> 1 <= StdChannels[s] <= ChannelCount;
    assert forall s, t :: s in StdChannels && t in StdChannels && s != t ==> StdChannels[s] != StdChannels[t];
  }

  lemma LM002ChannelsWellFormed()
    ensures WellFormedMap(LM002Channels)
  {
    assert LM002Channels.Keys == SensorNames;
    assert forall s :: s in LM002Channels ==> 1 <= LM002Channels[s] <= ChannelCount;
    assert forall s, t :: s in LM002Channels && t in LM002Channels && s != t ==> LM002Channels[s] != LM002Channels[t];
  }

  lemma AF001ChannelsWellFormed()
    ensures WellFormedMap(AF001Channels)
  {
    assert AF001Channels.Keys == SensorNames;
    assert forall s :: s in AF001Channels ==> 1 <= AF001Channels[s] <= ChannelCount;
    assert forall s, t :: s in AF001Channels && t in AF001Channels && s != t ==> AF001Channels[s] != AF001Channels[t];
  }

  lemma LF003ChannelsWellFormed()
    ensures WellFormedMap(LF003Channels)
  {
    assert LF003Channels.Keys == SensorNames;
    assert forall s :: s in LF003Channels ==> 1 <= LF003Channels[s] <= ChannelCount;
    assert forall s, t :: s in LF003Channels && t in LF003Channels && s != t ==> LF003Channels[s] != LF003Channels[t];
  }

  /** Every map the registry hands out is well formed. */
  lemma ResolvedMapWellFormed(speaker: string)
    requires ResolveChannels(speaker).Success?
    ensures WellFormedMap(ResolveChannels(speaker).value)
  {
    if speaker in NormalSpeakers {
      NormalSpeakersShareDefault(speaker);
      StdChannelsWellFormed();
    } else {
      IrregularSpeakersMaps();
      assert speaker in IrregularSpeakers;
      if speaker == "L_M002" || speaker == "L_M003" {
        LM002ChannelsWellFormed();
      } else if speaker == "A_F001" {
        AF001ChannelsWellFormed();
      } else {
        LF003ChannelsWellFormed();
      }
    }
  }

  /** Every speaker of the normal list gets the default map itself. */
  lemma NormalSpeakersShareDefault(speaker: string)
    requires speaker in NormalSpeakers
    ensures ResolveChannels(speaker) == Success(StdChannels)
  {
  }

  /** Which map each irregular speaker gets: L_M002 and L_M003 the same one,
      A_F001 and L_F003 one each. */
  lemma IrregularSpeakersMaps()
    ensures ResolveChannels("L_M002") == Success(LM002Channels)
    ensures ResolveChannels("L_M003") == ResolveChannels("L_M002")
    ensures ResolveChannels("A_F001") == Success(AF001Channels)
    ensures ResolveChannels("L_F003") == Success(LF003Channels)
  {
    IrregularNotNormal("L_M002");
    IrregularNotNormal("L_M003");
    IrregularNotNormal("A_F001");
    IrregularNotNormal("L_F003");
  }

  /** No irregular speaker gets the default map. */
  lemma IrregularSpeakerNotDefault(speaker: string)
    requires speaker in IrregularSpeakers
    ensures ResolveChannels(speaker).Success? && ResolveChannels(speaker).value != StdChannels
  {
    IrregularSpeakersMaps();
    if speaker == "L_M002" || speaker == "L_M003" {
      LM002Overrides();
      assert "NOSE" in Overridden(LM002Channels);
    } else if speaker == "A_F001" {
      AF001Overrides();
      assert "NOSE" in Overridden(AF001Channels);
    } else {
      LF003Overrides();
      assert "LE" in Overridden(LF003Channels);
    }
  }

  /** No speaker is on both lists. */
  lemma IrregularNotNormal(speaker: string)
    requires speaker in IrregularSpeakers
    ensures speaker !in NormalSpeakers
  {
  }

  /** The sensors on which a map departs from the default. */
  function Overridden(m: ChannelMap): (d: set<string>)
    ensures d <= m.Keys
    ensures forall s :: s in d <==> s in m && s in StdChannels && m[s] != StdChannels[s]
  {
    set s | s in m && s in StdChannels && m[s] != StdChannels[s]
  }

  /** Where the L_M002 (and L_M003) map departs from the default: the nose,
      the ears and the tongue dorsum moved; every other sensor kept its channel. */
  lemma LM002Overrides()
    ensures Overridden(LM002Channels) == {"NOSE", "LE", "RE", "TD"}
  {
    var o := Overridden(LM002Channels);
    assert "NOSE" in o && "LE" in o && "RE" in o && "TD" in o;
  }

  /** A_F001 moved the tongue body and tip as well. */
  lemma AF001Overrides()
    ensures Overridden(AF001Channels) == {"NOSE", "LE", "RE", "TD", "TB", "TT"}
  {
    var o := Overridden(AF001Channels);
    assert "NOSE" in o && "LE" in o && "RE" in o && "TD" in o && "TB" in o && "TT" in o;
  }

  /** L_F003 moved the left ear and the three tongue sensors. */
  lemma LF003Overrides()
    ensures Overridden(LF003Channels) == {"LE", "TD", "TB", "TT"}
  {
    var o := Overridden(LF003Channels);
    assert "LE" in o && "TD" in o && "TB" in o && "TT" in o;
  }
}
