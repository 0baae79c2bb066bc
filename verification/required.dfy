/** The configuration keys both entry points insist on before starting:
    the same two lists appear in app/app.py and main.py. */
module Required {
  const Settings: seq<string> :=
    ["INDEX_NAME", "APM_SERVICE_NAME", "APM_SERVICE_VERSION", "APM_ENVIRONMENT", "WMATA_API_URL", "SLEEP_DURATION"]

  const Secrets: seq<string> :=
    ["ES_USERNAME", "ES_PASSWORD", "ES_URL", "KB_URL", "APM_SECRET_TOKEN", "APM_SERVER_URL", "WMATA_API_KEY"]
}
