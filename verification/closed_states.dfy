/** How a consent leaves, or does not leave, the revoked and expired states. */
module ClosedStates {
  import opened Config
  import opened Rows
  import opened Records
  import opened Lifecycle
  import opened Invariants

  predicate IsAuthWrite(tx: Tx) {
    tx.AddAuth? || tx.ChangeAuth?
  }

  predicate IsClosed(cfg: Config, rec: Record) {
    rec.consent.Some? && (rec.consent.value.status == cfg.consent.revoked ||
                          rec.consent.value.status == cfg.consent.expired)
  }

  /** On a revoked or expired consent any sequence of authorization writes changes nothing at all. */
  lemma {:induction false} ClosedIgnoresAuthWrites(cfg: Config, cat: Catalog, k: Key, rec: Record, txs: seq<Tx>)
    requires IsClosed(cfg, rec) && forall i :: 0 <= i < |txs| ==> IsAuthWrite(txs[i])
    ensures Run(cfg, cat, k, rec, txs) == rec
    decreases |txs|
  {
    if txs != [] {
      assert Effect(cfg, cat, k, rec, txs[0]).Err?;
      ClosedIgnoresAuthWrites(cfg, cat, k, rec, txs[1..]);
    }
  }

  /** The revoked state is left exactly by an expiry or by an update that replaces authorizations. */
  lemma ExitsFromRevoked(cfg: Config, cat: Catalog, k: Key, rec: Record, tx: Tx)
    requires WellFormed(cfg) && rec.consent.Some? && rec.consent.value.status == cfg.consent.revoked
    requires Effect(cfg, cat, k, rec, tx).Ok?
    ensures Effect(cfg, cat, k, rec, tx).value.consent.value.status != cfg.consent.revoked <==>
            tx.Expire? || (tx.Update? && tx.update.auths.Some?)
  {
    if tx.Update? && tx.update.auths.Some? {
      DeriveIsOpen(cfg, InputStatuses(tx.update.auths.value));
    }
  }

  /** Renewed means the expiration an update leaves in place has not passed. */
  predicate Renews(c: Consent, input: UpdateInput, now: int) {
    var expiration := if input.expiration.Some? then input.expiration else c.expiration;
    expiration.None? || !IsConsentExpired(expiration.value, now)
  }

  /** The expired state is left exactly by a revocation, by an update that replaces authorizations, or
      by an update that renews the consent. */
  lemma ExitsFromExpired(cfg: Config, cat: Catalog, k: Key, rec: Record, tx: Tx)
    requires WellFormed(cfg) && rec.consent.Some? && rec.consent.value.status == cfg.consent.expired
    requires Effect(cfg, cat, k, rec, tx).Ok?
    ensures Effect(cfg, cat, k, rec, tx).value.consent.value.status != cfg.consent.expired <==>
            tx.Revoke? || (tx.Update? && (tx.update.auths.Some? || Renews(rec.consent.value, tx.update, tx.now)))
  {
    if tx.Update? {
      DeriveIsOpen(cfg, Statuses(rec.auths));
      if tx.update.auths.Some? {
        DeriveIsOpen(cfg, InputStatuses(tx.update.auths.value));
      }
    }
  }

  /** Renewing an expired consent without new authorizations never brings it back to active: it waits
      as created, its authorizations still marked. */
  lemma RenewalWaits(cfg: Config, cat: Catalog, k: Key, rec: Record, tx: Tx)
    requires WellFormed(cfg) && StatusAgrees(cfg, rec)
    requires rec.consent.Some? && rec.consent.value.status == cfg.consent.expired
    requires tx.Update? && tx.update.auths.None? && Effect(cfg, cat, k, rec, tx).Ok?
    ensures var rec' := Effect(cfg, cat, k, rec, tx).value;
            && rec'.auths == rec.auths
            && rec'.consent.value.status ==
               if Renews(rec.consent.value, tx.update, tx.now) then cfg.consent.created else cfg.consent.expired
  {
    SystemStatusesDoNotParticipate(cfg, rec.auths, cfg.auth.sysExpired);
  }
}
