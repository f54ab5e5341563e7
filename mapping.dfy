/**
 * The record mappers of `Utils`: a yt-dlp info record (`YTDLData`) becomes a Movie, MusicVideo,
 * Episode or Series metadata result, with the uploader as director (`CreatePerson`) and the
 * series name chosen by `GetSeriesNameFromVideo`. The host's entity types are records holding
 * only the properties the mappers set.
 */
module Mapping {
  import opened Wrappers
  import opened Text
  import opened Configuration
  import opened Dates
  import opened Episodes

  /** The fields of a yt-dlp `info.json` the plugin reads; any of them may be null. */
  datatype YTDLData = YTDLData(
    id: NString,
    title: NString,
    description: NString,
    uploadDate: NString,
    uploader: NString,
    channelId: NString,
    track: NString,
    artist: NString,
    album: NString,
    playlistTitle: NString)

  datatype PersonKind = Director

  /** `PersonInfo`: a name, a kind and the person's provider ids. */
  datatype PersonInfo = PersonInfo(name: NString, kind: PersonKind, providerIds: map<string, string>)

  /** The provider ids of an item: a value may be null (`ProviderIds.Add(key, null)`). */
  type ProviderIds = map<string, NString>

  datatype Movie = Movie(
    name: NString,
    overview: NString,
    productionYear: Option<int>,
    premiereDate: Option<Date>,
    providerIds: ProviderIds)

  datatype MusicVideo = MusicVideo(
    name: NString,
    artists: seq<NString>,
    album: NString,
    overview: NString,
    productionYear: Option<int>,
    premiereDate: Option<Date>,
    providerIds: ProviderIds)

  datatype Episode = Episode(
    name: NString,
    overview: NString,
    productionYear: Option<int>,
    premiereDate: Option<Date>,
    forcedSortName: NString,
    indexNumber: Option<int>,
    parentIndexNumber: Option<int>,
    providerIds: ProviderIds)

  datatype Series = Series(name: NString, overview: NString, providerIds: ProviderIds)

  /** `MetadataResult<T>`: the item, whether it has metadata, and its people in the order added. */
  datatype MetadataResult<T> = MetadataResult(hasMetadata: bool, item: T, people: seq<PersonInfo>)

  /** `result.AddPerson(person)`. */
  function AddPerson<T>(result: MetadataResult<T>, person: PersonInfo): MetadataResult<T> {
    result.(people := result.people + [person])
  }

  /** `CreatePerson`: a director, keyed to the channel when there is one. */
  function CreatePerson(name: NString, channelId: NString): (p: PersonInfo)
    ensures p.name == name && p.kind == Director
    ensures p.providerIds == map[] <==> channelId.None?
    ensures forall k :: k in p.providerIds ==> k == PluginName && Some(p.providerIds[k]) == channelId
  {
    if channelId.None? then PersonInfo(name, Director, map[])
    else
      var ids := map[PluginName := channelId.value];
      assert PluginName in ids;
      PersonInfo(name, Director, ids)
  }

  /** A person created with a channel id gives it back under the plugin's key. */
  lemma CreatePersonKeepsChannel(name: NString, channel: string)
    ensures PluginName in CreatePerson(name, Some(channel)).providerIds
    ensures CreatePerson(name, Some(channel)).providerIds[PluginName] == channel
  {
  }

  // ---------------------------------------------------------------- movies and music videos

  /** `YTDLJsonToMovie`; the record is dereferenced, so it is never null. */
  method YTDLJsonToMovie(json: YTDLData) returns (result: MetadataResult<Movie>)
    ensures result.hasMetadata
    ensures result.item.name == json.title && result.item.overview == json.description
    ensures result.item.premiereDate == Some(UploadDate(json.uploadDate))
    ensures result.item.productionYear == Some(UploadDate(json.uploadDate).year)
    ensures result.people == [CreatePerson(json.uploader, json.channelId)]
    ensures result.item.providerIds == map[PluginName := json.id]
  {
    var item := Movie(None, None, None, None, map[]);
    result := MetadataResult(true, item, []);
    result := result.(item := result.item.(name := json.title));
    result := result.(item := result.item.(overview := json.description));
    var date := Epoch;
    var parsed := ParseExactDate(json.uploadDate);
    if parsed.Some? {
      date := parsed.value;
    }
    result := result.(item := result.item.(productionYear := Some(date.year)));
    result := result.(item := result.item.(premiereDate := Some(date)));
    result := AddPerson(result, CreatePerson(json.uploader, json.channelId));
    result := result.(item := result.item.(providerIds := result.item.providerIds[PluginName := json.id]));
  }

  /** `String.IsNullOrEmpty(track) ? title : track`: a white-space track still wins. */
  function MusicVideoName(track: NString, title: NString): (r: NString)
    ensures r == track || r == title
    ensures r == title <== IsNullOrEmpty(track)
    ensures r == track <== !IsNullOrEmpty(track)
  {
    if IsNullOrEmpty(track) then title else track
  }

  /** A track of white space only is kept as the name, unlike a blank title elsewhere. */
  lemma WhiteSpaceTrackIsKept(title: NString)
    ensures MusicVideoName(Some(" "), title) == Some(" ")
  {
  }

  /** `YTDLJsonToMusicVideo`. */
  method YTDLJsonToMusicVideo(json: YTDLData) returns (result: MetadataResult<MusicVideo>)
    ensures result.hasMetadata
    ensures result.item.name == MusicVideoName(json.track, json.title)
    ensures result.item.artists == [json.artist] && result.item.album == json.album
    ensures result.item.overview == json.description
    ensures result.item.premiereDate == Some(UploadDate(json.uploadDate))
    ensures result.item.productionYear == Some(UploadDate(json.uploadDate).year)
    ensures result.people == [CreatePerson(json.uploader, json.channelId)]
    ensures result.item.providerIds == map[PluginName := json.id]
  {
    var item := MusicVideo(None, [], None, None, None, None, map[]);
    result := MetadataResult(true, item, []);
    result := result.(item := result.item.(name := if IsNullOrEmpty(json.track) then json.title else json.track));
    result := result.(item := result.item.(artists := [json.artist]));
    result := result.(item := result.item.(album := json.album));
    result := result.(item := result.item.(overview := json.description));
    var date := Epoch;
    var parsed := ParseExactDate(json.uploadDate);
    if parsed.Some? {
      date := parsed.value;
    }
    result := result.(item := result.item.(productionYear := Some(date.year)));
    result := result.(item := result.item.(premiereDate := Some(date)));
    result := AddPerson(result, CreatePerson(json.uploader, json.channelId));
    result := result.(item := result.item.(providerIds := result.item.providerIds[PluginName := json.id]));
  }

  // ---------------------------------------------------------------- episodes

  /** The episode's name: the title, or the fallback title when the title is blank. */
  function EpisodeName(title: NString, fallbackTitle: NString): (r: NString)
    ensures r == title || r == fallbackTitle
    ensures !IsNullOrWhiteSpace(r) ==> !IsNullOrWhiteSpace(title) || r == fallbackTitle
    ensures !IsNullOrWhiteSpace(title) ==> r == title
    ensures IsNullOrWhiteSpace(title) ==> r == fallbackTitle
  {
    if IsNullOrWhiteSpace(title) then fallbackTitle else title
  }

  /** The index an episode gets: its extracted number when auto-indexing is on and one is found, else 1. */
  function EpisodeIndex(config: Option<PluginConfiguration>, name: NString): (n: int)
    ensures 0 <= n <= 9999
    ensures !AutoEpisodeIndexing(config) || IsNullOrWhiteSpace(name) ==> n == 1
    ensures EpisodeNumber(name).None? ==> n == 1
    ensures AutoEpisodeIndexing(config) && EpisodeNumber(name).Some? ==> n == EpisodeNumber(name).value
  {
    var number := EpisodeNumber(name);
    if AutoEpisodeIndexing(config) && number.Some? then number.value else 1
  }

  /** Without a configuration, episodes are indexed by the number in their name. */
  lemma MissingConfigurationIndexes(name: NString)
    requires EpisodeNumber(name).Some?
    ensures EpisodeIndex(None, name) == EpisodeNumber(name).value
  {
  }

  /** The index step of `YTDLJsonToEpisode`: the number extracted from the name when auto-indexing is on, else 1. */
  method AutoIndex(config: Option<PluginConfiguration>, name: NString) returns (index: int)
    ensures index == EpisodeIndex(config, name)
  {
    var episodeNumber := ExtractEpisodeNumber(name);
    var shouldAutoIndex := AutoEpisodeIndexing(config);
    index := if shouldAutoIndex && episodeNumber.Some? then episodeNumber.value else 1;
  }

  /** `YTDLJsonToEpisode`; `config` and `fallbackTitle` may be null. */
  method YTDLJsonToEpisode(json: YTDLData, config: Option<PluginConfiguration>, fallbackTitle: NString)
    returns (result: MetadataResult<Episode>)
    ensures result.hasMetadata
    ensures result.item.name == EpisodeName(json.title, fallbackTitle)
    ensures result.item.overview == Some(json.description.GetOr(""))
    ensures result.item.premiereDate == Some(UploadDate(json.uploadDate))
    ensures result.item.productionYear == Some(UploadDate(json.uploadDate).year)
    ensures result.item.forcedSortName ==
      Some(FormatDate(UploadDate(json.uploadDate)) + "-" + EpisodeName(json.title, fallbackTitle).GetOr(""))
    ensures result.people == [CreatePerson(json.uploader, json.channelId)]
    ensures result.item.indexNumber == Some(EpisodeIndex(config, EpisodeName(json.title, fallbackTitle)))
    ensures result.item.parentIndexNumber == Some(1)
    ensures result.item.providerIds == map[PluginName := json.id]
  {
    var item := Episode(None, None, None, None, None, None, None, map[]);
    result := MetadataResult(true, item, []);
    var name := if IsNullOrWhiteSpace(json.title) then fallbackTitle else json.title;
    assert name == EpisodeName(json.title, fallbackTitle);
    result := result.(item := result.item.(name := name));
    result := result.(item := result.item.(overview := Some(json.description.GetOr(""))));
    var date := Epoch;
    var parsed := ParseExactDate(json.uploadDate);
    if parsed.Some? {
      date := parsed.value;
    }
    assert date == UploadDate(json.uploadDate);
    result := result.(item := result.item.(productionYear := Some(date.year)));
    result := result.(item := result.item.(premiereDate := Some(date)));
    result := result.(item := result.item.(forcedSortName := Some(FormatDate(date) + "-" + result.item.name.GetOr(""))));
    result := AddPerson(result, CreatePerson(json.uploader, json.channelId));
    var index := AutoIndex(config, name);
    result := result.(item := result.item.(indexNumber := Some(index)));
    result := result.(item := result.item.(parentIndexNumber := Some(1)));
    result := result.(item := result.item.(providerIds := result.item.providerIds[PluginName := json.id]));
  }

  /** The sort name starts with the eight date digits and a dash, so episodes sort by upload day. */
  lemma ForcedSortNameStartsWithDate(date: Date, name: NString)
    requires IsValidDate(date)
    ensures var s := FormatDate(date) + "-" + name.GetOr("");
      |s| >= 9 && AllDigits(s[..8]) && s[8] == '-' && ParseExactDate(Some(s[..8])) == Some(date)
  {
    var s := FormatDate(date) + "-" + name.GetOr("");
    assert s[..8] == FormatDate(date);
    ParseFormatRoundTrip(date);
  }

  // ---------------------------------------------------------------- series

  /**
   * `GetSeriesNameFromVideo`: the uploader when preferred, then the playlist title, then the
   * uploader, then the fallback name, else empty; white space counts as missing, and the record
   * itself may be null.
   */
  function GetSeriesNameFromVideo(json: Option<YTDLData>, fallbackName: NString, preferUploader: bool): (r: string)
    ensures r == "" <==> IsNullOrWhiteSpace(UploaderOf(json)) && IsNullOrWhiteSpace(PlaylistOf(json)) && IsNullOrWhiteSpace(fallbackName)
    ensures r != "" ==> !IsBlank(r)
  {
    var uploader := if json.Some? then json.value.uploader else None;
    var playlist := if json.Some? then json.value.playlistTitle else None;
    if preferUploader && !IsNullOrWhiteSpace(uploader) then uploader.value
    else if !IsNullOrWhiteSpace(playlist) then playlist.value
    else if !IsNullOrWhiteSpace(uploader) then uploader.value
    else if !IsNullOrWhiteSpace(fallbackName) then fallbackName.value
    else ""
  }

  function UploaderOf(json: Option<YTDLData>): NString {
    if json.Some? then json.value.uploader else None
  }

  function PlaylistOf(json: Option<YTDLData>): NString {
    if json.Some? then json.value.playlistTitle else None
  }

  /** The series name is one of the candidates, and it is blank exactly when all of them are. */
  lemma SeriesNameIsACandidate(json: Option<YTDLData>, fallbackName: NString, preferUploader: bool)
    ensures var r := GetSeriesNameFromVideo(json, fallbackName, preferUploader);
      r == "" || Some(r) == UploaderOf(json) || Some(r) == PlaylistOf(json) || Some(r) == fallbackName
    ensures var r := GetSeriesNameFromVideo(json, fallbackName, preferUploader);
      IsBlank(r) <==> IsNullOrWhiteSpace(UploaderOf(json)) && IsNullOrWhiteSpace(PlaylistOf(json)) && IsNullOrWhiteSpace(fallbackName)
  {
  }

  /**
   * The order of the candidates: a usable uploader when preferred, else a usable playlist title,
   * else a usable uploader, else a usable fallback name, else the empty string.
   */
  lemma SeriesNamePrecedence(json: Option<YTDLData>, fallbackName: NString, preferUploader: bool)
    ensures preferUploader && !IsNullOrWhiteSpace(UploaderOf(json)) ==>
      GetSeriesNameFromVideo(json, fallbackName, preferUploader) == UploaderOf(json).value
    ensures (!preferUploader || IsNullOrWhiteSpace(UploaderOf(json))) && !IsNullOrWhiteSpace(PlaylistOf(json)) ==>
      GetSeriesNameFromVideo(json, fallbackName, preferUploader) == PlaylistOf(json).value
    ensures !preferUploader && IsNullOrWhiteSpace(PlaylistOf(json)) && !IsNullOrWhiteSpace(UploaderOf(json)) ==>
      GetSeriesNameFromVideo(json, fallbackName, preferUploader) == UploaderOf(json).value
    ensures IsNullOrWhiteSpace(UploaderOf(json)) && IsNullOrWhiteSpace(PlaylistOf(json)) && !IsNullOrWhiteSpace(fallbackName) ==>
      GetSeriesNameFromVideo(json, fallbackName, preferUploader) == fallbackName.value
    ensures IsNullOrWhiteSpace(UploaderOf(json)) && IsNullOrWhiteSpace(PlaylistOf(json)) && IsNullOrWhiteSpace(fallbackName) ==>
      GetSeriesNameFromVideo(json, fallbackName, preferUploader) == ""
  {
  }

  /** The preference only changes the name when both the uploader and the playlist title are usable. */
  lemma SeriesPreferenceMatters(json: Option<YTDLData>, fallbackName: NString)
    ensures GetSeriesNameFromVideo(json, fallbackName, true) != GetSeriesNameFromVideo(json, fallbackName, false) ==>
      !IsNullOrWhiteSpace(UploaderOf(json)) && !IsNullOrWhiteSpace(PlaylistOf(json)) &&
      UploaderOf(json) != PlaylistOf(json)
  {
  }

  /** The fixed overview of a series whose record has no description. */
  const DefaultSeriesOverview := "Series metadata from YouTube."

  /** The series overview: the description, or the fixed text when it is blank. */
  function SeriesOverview(description: NString): (r: string)
    ensures !IsBlank(r)
    ensures !IsNullOrWhiteSpace(description) ==> r == description.value
    ensures IsNullOrWhiteSpace(description) ==> r == DefaultSeriesOverview
  {
    if IsNullOrWhiteSpace(description) then
      assert !IsSpace(DefaultSeriesOverview[0]);
      DefaultSeriesOverview
    else description.value
  }

  /** `YTDLJsonToSeries`: named by GetSeriesNameFromVideo, keyed by the channel id, not the video id. */
  method YTDLJsonToSeries(json: YTDLData, config: Option<PluginConfiguration>, fallbackName: NString)
    returns (result: MetadataResult<Series>)
    ensures result.hasMetadata && result.people == []
    ensures result.item.name == Some(GetSeriesNameFromVideo(Some(json), fallbackName, PreferUploader(config)))
    ensures result.item.overview == Some(SeriesOverview(json.description))
    ensures result.item.providerIds == map[PluginName := json.channelId]
  {
    var item := Series(None, None, map[]);
    result := MetadataResult(true, item, []);
    var preferUploader := PreferUploader(config);
    result := result.(item := result.item.(name := Some(GetSeriesNameFromVideo(Some(json), fallbackName, preferUploader))));
    result := result.(item := result.item.(overview :=
      Some(if IsNullOrWhiteSpace(json.description) then DefaultSeriesOverview else json.description.value)));
    result := result.(item := result.item.(providerIds := result.item.providerIds[PluginName := json.channelId]));
  }
}
