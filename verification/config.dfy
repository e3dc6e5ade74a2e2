/** Consent configuration: the status names a deployment chooses, and ASCII case folding. */
module Config {

  function UpperChar(c: char): char {
    if 'a' <= c <= 'z' then (c as int - 32) as char else c
  }

  function LowerChar(c: char): char {
    if 'A' <= c <= 'Z' then (c as int + 32) as char else c
  }

  /** strings.ToUpper on ASCII text. */
  function ToUpper(s: string): string {
    seq(|s|, i requires 0 <= i < |s| => UpperChar(s[i]))
  }

  /** strings.ToLower on ASCII text. */
  function ToLower(s: string): string {
    seq(|s|, i requires 0 <= i < |s| => LowerChar(s[i]))
  }

  /** strings.EqualFold on ASCII text. */
  predicate EqualFold(a: string, b: string) {
    ToUpper(a) == ToUpper(b)
  }

  datatype ConsentStatuses = ConsentStatuses(
    active: string, expired: string, revoked: string, created: string, rejected: string)

  datatype AuthStatuses = AuthStatuses(
    approved: string, rejected: string, created: string, recorded: string,
    sysExpired: string, sysRevoked: string)

  datatype Config = Config(consent: ConsentStatuses, auth: AuthStatuses, historyEnabled: bool)

  /** What a deployment has to respect for the names to mean anything: the six authorization
      statuses are non-empty and differ ignoring case, the five consent statuses differ. */
  predicate WellFormed(cfg: Config) {
    && cfg.auth.approved != "" && cfg.auth.rejected != "" && cfg.auth.created != ""
    && cfg.auth.recorded != "" && cfg.auth.sysExpired != "" && cfg.auth.sysRevoked != ""
    && !EqualFold(cfg.auth.approved, cfg.auth.rejected)
    && !EqualFold(cfg.auth.approved, cfg.auth.created)
    && !EqualFold(cfg.auth.approved, cfg.auth.recorded)
    && !EqualFold(cfg.auth.approved, cfg.auth.sysExpired)
    && !EqualFold(cfg.auth.approved, cfg.auth.sysRevoked)
    && !EqualFold(cfg.auth.rejected, cfg.auth.created)
    && !EqualFold(cfg.auth.rejected, cfg.auth.recorded)
    && !EqualFold(cfg.auth.rejected, cfg.auth.sysExpired)
    && !EqualFold(cfg.auth.rejected, cfg.auth.sysRevoked)
    && !EqualFold(cfg.auth.created, cfg.auth.recorded)
    && !EqualFold(cfg.auth.created, cfg.auth.sysExpired)
    && !EqualFold(cfg.auth.created, cfg.auth.sysRevoked)
    && !EqualFold(cfg.auth.recorded, cfg.auth.sysExpired)
    && !EqualFold(cfg.auth.recorded, cfg.auth.sysRevoked)
    && !EqualFold(cfg.auth.sysExpired, cfg.auth.sysRevoked)
    && cfg.consent.active != cfg.consent.expired && cfg.consent.active != cfg.consent.revoked
    && cfg.consent.active != cfg.consent.created && cfg.consent.active != cfg.consent.rejected
    && cfg.consent.expired != cfg.consent.revoked && cfg.consent.expired != cfg.consent.created
    && cfg.consent.expired != cfg.consent.rejected && cfg.consent.revoked != cfg.consent.created
    && cfg.consent.revoked != cfg.consent.rejected && cfg.consent.created != cfg.consent.rejected
  }

  /** A status only the server may set, recognised ignoring case. */
  predicate IsSystemStatus(cfg: Config, status: string) {
    EqualFold(cfg.auth.sysExpired, status) || EqualFold(cfg.auth.sysRevoked, status)
  }
}
