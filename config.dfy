/** The configuration surface the core reads (app/core/config.py), with its default constants. */
module Config {
  import opened Wrappers

  const AccessTokenExpireMinutes: int := 30
  const RefreshTokenExpireDays: int := 7

  /** Token lifetimes in seconds, the unit of the model's clock. */
  const AccessTokenTtl: int := AccessTokenExpireMinutes * 60
  const RefreshTokenTtl: int := RefreshTokenExpireDays * 24 * 60 * 60

  /** The settings that the endpoints read and that have no default. */
  datatype Settings = Settings(
    yandexClientId: string,
    yandexRedirectUri: string,
    firstSuperuserYandexId: Option<string>)
}
