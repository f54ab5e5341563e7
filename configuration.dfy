/**
 * The plugin's settings (PluginConfiguration.cs) and the two readings of a possibly
 * missing configuration that the mappers make.
 */
module Configuration {
  import opened Wrappers
  import opened Text

  /** `Constants.PluginName`, the key under which provider ids are stored. */
  const PluginName := "YoutubeAutoMetadata"

  /** `IDTypes`: where ids come from. */
  datatype IdType = Ytdlp | TubeArchivist

  /** The settings bag; string settings may be null. */
  datatype PluginConfiguration = PluginConfiguration(
    idType: IdType,
    enableTitleLookupWithoutId: bool,
    searchResultLimit: int,
    enableAutoEpisodeIndexing: bool,
    preferUploaderAsSeriesName: bool,
    enableAiMetadataCleanup: bool,
    enableAiDescriptionCleanup: bool,
    aiApiKey: NString,
    aiBaseUrl: NString,
    aiModel: NString)

  /** The values set by the parameterless constructor. */
  const DefaultConfiguration := PluginConfiguration(
    Ytdlp, true, 10, true, true, false, false,
    Some(""), Some("https://api.openai.com/v1"), Some("gpt-4o-mini"))

  /** `config?.EnableAutoEpisodeIndexing ?? true`. */
  function AutoEpisodeIndexing(config: Option<PluginConfiguration>): bool {
    match config
    case None => true
    case Some(c) => c.enableAutoEpisodeIndexing
  }

  /** `config?.PreferUploaderAsSeriesName ?? true`. */
  function PreferUploader(config: Option<PluginConfiguration>): bool {
    match config
    case None => true
    case Some(c) => c.preferUploaderAsSeriesName
  }

  /** A missing configuration behaves as the default one, for both readings the mappers make. */
  lemma MissingConfigurationIsDefault()
    ensures AutoEpisodeIndexing(None) == AutoEpisodeIndexing(Some(DefaultConfiguration))
    ensures PreferUploader(None) == PreferUploader(Some(DefaultConfiguration))
  {
  }

  /** By default the AI step is switched off, and the default key is blank. */
  lemma DefaultConfigurationDisablesAi()
    ensures !DefaultConfiguration.enableAiMetadataCleanup
    ensures IsNullOrWhiteSpace(DefaultConfiguration.aiApiKey)
    ensures !IsNullOrWhiteSpace(DefaultConfiguration.aiModel)
  {
    assert DefaultConfiguration.aiModel.value[0] == 'g';
  }
}
