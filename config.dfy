/**
 * The configuration the core reads (internal/config/config.go). Loading it from the
 * environment is not modelled: the values arrive as an immutable Settings value.
 */
module Config {

  /** The expiration period GenerateFileLink actually uses: the compile-time default, 24 hours. */
  const DefaultExpirationPeriod: int := 86400

  datatype Settings = Settings(
    port: int,                   // FENFA_PORT
    host: string,                // FENFA_HOST
    failedAttemptLimit: int,     // FENFA_FAILED_ATTEMPT_LIMIT
    maxZipSize: int,             // FENFA_MAX_ZIP_SIZE
    maxZipDepth: int,            // FENFA_MAX_ZIP_DEPTH
    rateLimit: int,              // FENFA_RATE_LIMIT
    templateIncludesPort: bool,  // FENFA_TEMPLATE_INCLUDES_PORT
    zipDirectory: string         // <binary directory>/.fenfa
  )
}
