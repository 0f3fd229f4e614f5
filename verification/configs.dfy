/**
 * internal/configs: the process-wide settings, normalised once at start-up,
 * and the two mutable fields the ingestion tick keeps between runs (the
 * cached API key and the cached etag).
 */
module Configs {
  import opened Wrappers
  import opened Utils

  const DefaultMaxTokens: Int64 := 5
  const DefaultPerPageLimit: Int64 := 5
  const DefaultFetchLatestVideosSeconds: Int64 := 10
  const DefaultUpdateApiKeysExpirationMinutes: Int64 := 120

  /** Upper bound the upstream search accepts for `maxResults`. */
  const MaxVideosFetchedLimit: Int64 := 50

  /** The environment InitConfig reads; an unset variable reads as "". */
  datatype Env = Env(
    port: string,
    mongoDbUri: string,
    query: string,
    maxVideosFetched: string,
    perPageLimit: string,
    fetchLatestVideosSeconds: string,
    updateApiKeysExpirationMinutes: string)

  /** The settings whose absence stops the process at start-up, in the order they are checked. */
  datatype ConfigError = MissingPort | MissingMongoDbUri | MissingQuery

  /** MAX_VIDEOS_FETCHED outside [1, 50] falls back to the default. */
  function NormaliseMaxVideosFetched(v: Int64): (r: Int64)
    ensures 1 <= r <= MaxVideosFetchedLimit
    ensures 1 <= v <= MaxVideosFetchedLimit ==> r == v
    ensures !(1 <= v <= MaxVideosFetchedLimit) ==> r == DefaultMaxTokens
  {
    if v > MaxVideosFetchedLimit || v < 1 then DefaultMaxTokens else v
  }

  /** The rule shared by the three other numeric settings: below 1 falls back to the default. */
  function NormalisePositive(v: Int64, defaultVal: Int64): (r: Int64)
    requires defaultVal >= 1
    ensures r >= 1
    ensures v >= 1 ==> r == v
    ensures v < 1 ==> r == defaultVal
  {
    if v < 1 then defaultVal else v
  }

  /** A value set in the environment inside [1, 50] is what the service ends up using. */
  lemma MaxVideosFetchedFromEnv(value: string)
    requires IsInt64Literal(value) && 1 <= LiteralValue(value) <= MaxVideosFetchedLimit
    ensures NormaliseMaxVideosFetched(GetEnvInt(value, DefaultMaxTokens)) == LiteralValue(value)
  {
  }

  class Config {
    var port: string
    var etag: string
    var maxVideosFetched: Int64
    var perPageLimit: Int64
    var fetchLatestVideosSeconds: Int64
    var updateApiKeysExpirationMinutes: Int64
    var query: string
    var mongoDbUri: string
    var validApiKey: string

    /** The zero value of the Go struct: the state before InitConfig runs. */
    constructor ()
      ensures port == "" && etag == "" && query == "" && mongoDbUri == "" && validApiKey == ""
      ensures maxVideosFetched == 0 && perPageLimit == 0
      ensures fetchLatestVideosSeconds == 0 && updateApiKeysExpirationMinutes == 0
    {
      port, etag, query, mongoDbUri, validApiKey := "", "", "", "", "";
      maxVideosFetched, perPageLimit := 0, 0;
      fetchLatestVideosSeconds, updateApiKeysExpirationMinutes := 0, 0;
    }

    /** The ranges every numeric setting is in once InitConfig has completed. */
    ghost predicate Normalised()
      reads this
    {
      && 1 <= maxVideosFetched <= MaxVideosFetchedLimit
      && perPageLimit >= 1
      && fetchLatestVideosSeconds >= 1
      && updateApiKeysExpirationMinutes >= 1
    }

    /**
     * InitConfig. A missing PORT, MONGODB_URI or QUERY is fatal (checked in
     * that order); otherwise every numeric setting is read with GetEnvInt
     * and normalised, and the etag starts empty. The cached API key is not
     * touched.
     */
    method InitConfig(env: Env) returns (r: Outcome<ConfigError>)
      modifies this
      ensures env.port == "" ==> r == Fail(MissingPort)
      ensures env.port != "" && env.mongoDbUri == "" ==> r == Fail(MissingMongoDbUri)
      ensures env.port != "" && env.mongoDbUri != "" && env.query == "" ==> r == Fail(MissingQuery)
      ensures r.Pass? <==> env.port != "" && env.mongoDbUri != "" && env.query != ""
      ensures r.Pass? ==> port == env.port && mongoDbUri == env.mongoDbUri && query == env.query
      ensures r.Pass? ==> NormalisedFrom(env) && Normalised() && etag == ""
      ensures validApiKey == old(validApiKey)
    {
      port := env.port;
      if port == "" {
        return Fail(MissingPort);
      }
      mongoDbUri := env.mongoDbUri;
      if mongoDbUri == "" {
        return Fail(MissingMongoDbUri);
      }
      query := env.query;
      if query == "" {
        return Fail(MissingQuery);
      }
      ReadNumericSettings(env);
      etag := "";
      return Pass;
    }

    /** The numeric settings hold the normalised environment values. */
    ghost predicate NormalisedFrom(env: Env)
      reads this
    {
      && maxVideosFetched == NormaliseMaxVideosFetched(GetEnvInt(env.maxVideosFetched, DefaultMaxTokens))
      && perPageLimit == NormalisePositive(GetEnvInt(env.perPageLimit, DefaultPerPageLimit), DefaultPerPageLimit)
      && fetchLatestVideosSeconds
         == NormalisePositive(GetEnvInt(env.fetchLatestVideosSeconds, DefaultFetchLatestVideosSeconds), DefaultFetchLatestVideosSeconds)
      && updateApiKeysExpirationMinutes
         == NormalisePositive(GetEnvInt(env.updateApiKeysExpirationMinutes, DefaultUpdateApiKeysExpirationMinutes),
                              DefaultUpdateApiKeysExpirationMinutes)
    }

    /** The four GetEnvInt reads of InitConfig, each followed by its range correction. */
    method ReadNumericSettings(env: Env)
      modifies this`maxVideosFetched, this`perPageLimit, this`fetchLatestVideosSeconds, this`updateApiKeysExpirationMinutes
      ensures NormalisedFrom(env) && Normalised()
    {
      var maxVideos := GetEnvInt(env.maxVideosFetched, DefaultMaxTokens);
      if maxVideos > MaxVideosFetchedLimit || maxVideos < 1 {
        maxVideos := DefaultMaxTokens;
      }
      var pageLimit := GetEnvInt(env.perPageLimit, DefaultPerPageLimit);
      if pageLimit < 1 {
        pageLimit := DefaultPerPageLimit;
      }
      var fetchSeconds := GetEnvInt(env.fetchLatestVideosSeconds, DefaultFetchLatestVideosSeconds);
      if fetchSeconds < 1 {
        fetchSeconds := DefaultFetchLatestVideosSeconds;
      }
      var expirationMinutes := GetEnvInt(env.updateApiKeysExpirationMinutes, DefaultUpdateApiKeysExpirationMinutes);
      if expirationMinutes < 1 {
        expirationMinutes := DefaultUpdateApiKeysExpirationMinutes;
      }
      maxVideosFetched, perPageLimit := maxVideos, pageLimit;
      fetchLatestVideosSeconds, updateApiKeysExpirationMinutes := fetchSeconds, expirationMinutes;
    }

    function GetEtag(): string
      reads this
    {
      etag
    }

    function GetValidApiKey(): string
      reads this
    {
      validApiKey
    }

    /** SetEtag: the getter returns the new etag; no other field changes. */
    method SetEtag(e: string)
      modifies this`etag
      ensures GetEtag() == e
    {
      etag := e;
    }

    /** SetValidApiKey: the getter returns the new key; no other field changes. */
    method SetValidApiKey(k: string)
      modifies this`validApiKey
      ensures GetValidApiKey() == k
    {
      validApiKey := k;
    }
  }
}
