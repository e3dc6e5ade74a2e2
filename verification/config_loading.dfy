/** What loading a configuration guarantees about the status names, and what it leaves to the deployment. */
module ConfigLoading {
  import opened Wrappers
  import opened Config

  const DEFAULT_RECORDED := "RECORDED"

  /** The parts of a configuration that decide whether it loads. */
  datatype Settings = Settings(
    port: int, databaseType: string, path: string, hostname: string, database: string, statuses: Config)

  predicate DatabaseGiven(s: Settings) {
    if s.databaseType == "sqlite" then s.path != "" else s.hostname != "" && s.database != ""
  }

  /** applyDefaults and validateConfig. */
  method LoadStatuses(s: Settings) returns (r: Option<Config>)
    ensures r.Some? <==> 1 <= s.port <= 65535 && DatabaseGiven(s) && Accepted(s.statuses)
    ensures r.Some? ==> r.value == WithDefaults(s.statuses)
    ensures r.Some? ==>
      && r.value.auth.recorded == (if s.statuses.auth.recorded != "" then s.statuses.auth.recorded else "RECORDED")
      && r.value == s.statuses.(auth := s.statuses.auth.(recorded := r.value.auth.recorded))
  {
    var cfg := s.statuses;
    if cfg.auth.recorded == "" {
      cfg := cfg.(auth := cfg.auth.(recorded := DEFAULT_RECORDED));
    }
    if s.port <= 0 || s.port > 65535 {
      return None;
    }
    if s.databaseType == "sqlite" {
      if s.path == "" {
        return None;
      }
    } else if s.hostname == "" || s.database == "" {
      return None;
    }
    if || cfg.consent.active == "" || cfg.consent.expired == "" || cfg.consent.revoked == ""
       || cfg.consent.created == "" || cfg.consent.rejected == ""
    {
      return None;
    }
    if || cfg.auth.approved == "" || cfg.auth.rejected == "" || cfg.auth.created == ""
       || cfg.auth.sysExpired == "" || cfg.auth.sysRevoked == ""
    {
      return None;
    }
    return Some(cfg);
  }

  function WithDefaults(raw: Config): Config {
    if raw.auth.recorded == "" then raw.(auth := raw.auth.(recorded := DEFAULT_RECORDED)) else raw
  }

  /** The authorization statuses a deployment has to map. */
  function MappedAuthNames(cfg: Config): seq<string> {
    [cfg.auth.approved, cfg.auth.rejected, cfg.auth.created, cfg.auth.sysExpired, cfg.auth.sysRevoked]
  }

  function AuthNames(cfg: Config): seq<string> {
    MappedAuthNames(cfg) + [cfg.auth.recorded]
  }

  function ConsentNames(cfg: Config): seq<string> {
    [cfg.consent.active, cfg.consent.expired, cfg.consent.revoked, cfg.consent.created, cfg.consent.rejected]
  }

  /** Every name a deployment has to map is mapped; the recorded status may be left out. */
  predicate Accepted(raw: Config) {
    "" !in ConsentNames(raw) && "" !in MappedAuthNames(raw)
  }

  predicate DistinctNames(names: seq<string>) {
    forall i, j :: 0 <= i < j < |names| ==> names[i] != names[j]
  }

  function Folded(names: seq<string>): seq<string> {
    seq(|names|, i requires 0 <= i < |names| => ToUpper(names[i]))
  }

  lemma PairwiseConsent(cfg: Config)
    ensures DistinctNames(ConsentNames(cfg)) <==>
              && cfg.consent.active != cfg.consent.expired && cfg.consent.active != cfg.consent.revoked
              && cfg.consent.active != cfg.consent.created && cfg.consent.active != cfg.consent.rejected
              && cfg.consent.expired != cfg.consent.revoked && cfg.consent.expired != cfg.consent.created
              && cfg.consent.expired != cfg.consent.rejected && cfg.consent.revoked != cfg.consent.created
              && cfg.consent.revoked != cfg.consent.rejected && cfg.consent.created != cfg.consent.rejected
  {
    var n := ConsentNames(cfg);
    assert n[0] == cfg.consent.active && n[1] == cfg.consent.expired && n[2] == cfg.consent.revoked;
    assert n[3] == cfg.consent.created && n[4] == cfg.consent.rejected;
  }

  lemma PairwiseAuth(cfg: Config)
    ensures var n := Folded(AuthNames(cfg));
            && n == [ToUpper(cfg.auth.approved), ToUpper(cfg.auth.rejected), ToUpper(cfg.auth.created),
                     ToUpper(cfg.auth.sysExpired), ToUpper(cfg.auth.sysRevoked), ToUpper(cfg.auth.recorded)]
  {
  }

  /** A loaded configuration is fit for use exactly when, besides, the authorization statuses differ
      ignoring case and the consent statuses differ; loading does not check that. */
  lemma LoadedIsWellFormedIffDistinct(raw: Config)
    requires Accepted(raw)
    ensures WellFormed(WithDefaults(raw)) <==>
              DistinctNames(Folded(AuthNames(WithDefaults(raw)))) && DistinctNames(ConsentNames(raw))
  {
    var cfg := WithDefaults(raw);
    PairwiseConsent(cfg);
    PairwiseAuth(cfg);
    var f := Folded(AuthNames(cfg));
    assert f[0] == ToUpper(cfg.auth.approved) && f[1] == ToUpper(cfg.auth.rejected) &&
      f[2] == ToUpper(cfg.auth.created);
    assert f[3] == ToUpper(cfg.auth.sysExpired) && f[4] == ToUpper(cfg.auth.sysRevoked) &&
      f[5] == ToUpper(cfg.auth.recorded);
  }

  /** A configuration written before the recorded status existed can collide with its default: it loads,
      and is not fit for use. */
  lemma DefaultCanCollide()
    ensures var raw := Config(ConsentStatuses("ACTIVE", "EXPIRED", "REVOKED", "CREATED", "REJECTED"),
                              AuthStatuses("recorded", "REJECTED", "CREATED", "", "SYS_EXPIRED", "SYS_REVOKED"), true);
            Accepted(raw) && !WellFormed(WithDefaults(raw))
  {
    assert ToUpper("recorded") == "RECORDED" == ToUpper("RECORDED");
  }
}
