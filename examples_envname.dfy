/** The table of names of the package's tests: prefix, flag name, environment-variable name. */
module EnvNameExamples {
  import opened EnvName

  lemma NameEmptyHost()
    ensures EnvVarNameFromPrefix("")("host") == "HOST"
  {
  }

  lemma NameEmptyLogLevel()
    ensures EnvVarNameFromPrefix("")("log-level") == "LOG_LEVEL"
  {
  }

  lemma NameEmptyHttpPort()
    ensures EnvVarNameFromPrefix("")("http-port") == "HTTP_PORT"
  {
  }

  lemma NameAppHost()
    ensures EnvVarNameFromPrefix("app")("host") == "APP_HOST"
  {
  }

  lemma NameSvcHttpPort()
    ensures EnvVarNameFromPrefix("svc")("http-port") == "SVC_HTTP_PORT"
  {
  }

  lemma NameSvcEnableFeatureX()
    ensures EnvVarNameFromPrefix("SVC")("enable-feature-x") == "SVC_ENABLE_FEATURE_X"
  {
  }

  lemma NameAppUnderscoreHost()
    ensures EnvVarNameFromPrefix("app_")("host") == "APP_HOST"
  {
  }

  /** Only a trailing `_` counts as a separator: a prefix ending in `-` gets a second one. */
  lemma HyphenEndedPrefix()
    ensures EnvVarNameFromPrefix("app-")("host") == "APP__HOST"
  {
  }
}
