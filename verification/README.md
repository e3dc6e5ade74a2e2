# OpenFGC consent engine: a verified model

OpenFGC keeps consents: a consent row, its authorization rows, an append-only audit of status changes, and, when
history is enabled, a snapshot of the consent before every change. Consents are created against a catalogue of
versioned purposes, each mapped to versioned elements. Services change these tables by running a list of closures as
one transaction. This project models those services and proves what every reachable state keeps. Nothing here executes
the server; the proofs are about the model, and `dafny verify dfyconfig.toml` checks all of them.

## How the model is built

* **Tables and transactions** (`rows`, `records`, `tables`, `catalog_store`, `transactions`). The database is a record
  of tables. `Registry.ExecuteTransaction` runs a step list on a working copy and commits it or throws it away; any
  step, the opening or the commit may fail. `tables` and `table_runs` show that, seen one consent at a time, the flat
  tables are a collection of independent records.
* **Lifecycle** (`status_derivation`, `auth_rules`, `lifecycle`, `invariants`, `closed_states`, `stored_fields`). The
  net effect of each call on one consent, what it stores field by field, and the invariants every sequence of calls
  keeps.
* **Step lists** (`refinement`, `step_lists`, `runnable`). The closures the services build, step by step as in the
  source, shown to have exactly those net effects.
* **Services** (`purpose_resolution`, `consent_service`, `auth_service`, `expiration_job`, `consent_validation`,
  `consent_outcomes`, `overdue_consent`, `read_model`, `element_references`, `catalog_service`, `element_service`,
  `version_numbers`). Methods with the source's checks, loops and transactions, each with its whole new state, its
  errors, what its answer shows, and what happens when a store call fails.
* **Whole system** (`integrity`, `catalog_effects`, `catalog_runs`). Runs of consent and catalogue calls in any order:
  links, approvals, unambiguous names and version numbers, unchanging versions, and histories that replay.
* **Interleaving** (`interleaving`). Authorization additions and expiries of one consent, interleaved closure by
  closure under the row lock, with each transaction's writes private until it commits.
* **Queries** (`sql_text`, `search_query`, `search_meaning`, `search_order`, `consent_search`, `list_query`,
  `list_meaning`, `sql_meaning`, `statement_meaning`, `sort_parsing`, `like`, `placeholders`, `batch_loading`). The
  generated statements, their placeholders, what their words mean to a database, what they return, in which order and
  on which page.
* **Configuration** (`config`, `config_loading`, `letters`, `substitution`).
* **Helpers** (`wrappers`, `numerals`, `sequences`).

## Where the code does not do what one might expect

* The update statement for an authorization does not write its type, so a type change is validated, answered as done
  and not stored; the answer is what is stored exactly when the request leaves the type alone
  (`AuthService.UpdateReadsBackExactly`).
* The expiration job selects an expiry of zero, which `IsConsentExpired` treats as no expiry, and so expires consents
  that no read would; apart from that the two agree (`ExpirationJob.SelectionAgreesExactly`,
  `ExpirationJob.ZeroExpirationIsSelected`).
* When expiring an overdue active consent fails, `ValidateConsent` goes on with the consent as it found it and can call
  it valid. It does so exactly when a store failure strikes the opening, the commit or one of the four closures of the
  expiry (`ConsentValidation.ValidateConsent`, `OverdueConsent.OverdueIsCalledValid`).
* On MySQL the LIKE pattern of a name with a backslash matches other texts (`Like.MySqlExactIffNoBackslash`).
* References to different elements can be refused as duplicates. A reference can be mistaken for another exactly when
  it has a version number, a bar in its name, or a bar inside its namespace (`ElementReferences.RivalIffMistakable`,
  `ElementReferences.DifferentElementsRefused`).
* Version numbers are handed out again, exactly after deleting the latest version of a purpose or an element
  (`VersionNumbers.NumberReturnsIffLatest`, `VersionNumbers.ElementNumberReturnsIffLatest`,
  `VersionNumbers.NumberTwoTwice`).
* Searches upper-case the statuses they are given. Under exact comparison, a status that a deployment does not spell in
  upper case is therefore never found (`SearchMeaning.OneStatusIsFound`, `ConsentSearch.LowerCaseStatusIsNotFound`).
* Loading a configuration does not check that status names differ (`ConfigLoading.LoadedIsWellFormedIffDistinct`);
  everything about statuses is proved for configurations that do (`Config.WellFormed`).

## Model

| member | source | states |
|---|---|---|
| `ConfigLoading.LoadStatuses` | consent-server/internal/system/config/config.go:308-382 | a configuration loads exactly when the port is in range, the database is given, and the five consent and five authorization statuses are mapped; a missing recorded status gets its default |
| `ConfigLoading.LoadedIsWellFormedIffDistinct` | consent-server/internal/system/config/config.go:321-382 | a loaded configuration meets what the rest relies on if and only if its authorization statuses differ ignoring case and its consent statuses differ: loading itself does not check that |
| `ConfigLoading.DefaultCanCollide` | consent-server/internal/system/config/config.go:310-318 | a configuration that loads although the default for the recorded status collides with the approved one |
| `Substitution.SubstituteEnvironmentVariables` | consent-server/internal/system/config/config.go:274-305 | the in-place loop terminates with the unread suffix as measure and equals left-to-right substitution, the reported error position included |
| `Substitution.PiecesAreSubstituted` | consent-server/internal/system/config/config.go:284-301 | a text made of plain characters and closed variables becomes those characters and the variables' values, taken as they are and never read again; a dangling `${` after it is an error at the place reached |
| `Substitution.EveryTextFallsApart` | consent-server/internal/system/config/config.go:280-293 | every text is such a list of pieces, completely or up to one dangling opening |
| `Substitution.FailsExactlyWhenUnclosed` | consent-server/internal/system/config/config.go:287-292 | substitution fails if and only if an opening in the not yet consumed text has no later closing brace |
| `AuthRules.NormalizeAuthTypeIsCanonical` | consent-server/internal/authresource/model/auth_resource.go:42-62 | normalizing is idempotent, keeps custom types, and identifies exactly the spellings of one reserved type |
| `Letters.FoldsExactly` | consent-server/internal/consent/validator/consent.go:324-336 | ignoring case identifies exactly the two cases of each of the 26 letters, upward and downward |
| `Letters.EqualFoldExactly` | consent-server/internal/consent/validator/consent.go:212-233 | texts are equal ignoring case exactly when they are letter by letter, and upper-casing and lower-casing agree on it |
| `AuthRules.ValidateParticipation` | consent-server/internal/consent/validator/consent.go:212-233 | the loop refuses exactly the sets whose every authorization is a recorded participant |
| `AuthRules.ValidateDelegationTypes` | consent-server/internal/consent/validator/consent.go:237-274 | the two loops accept exactly the sets without delegation types and those made of the two types with both present, and name the violation |
| `AuthRules.ValidateAuthTypeConstraints` | consent-server/internal/consent/validator/consent.go:197-207 | accepts exactly the well-shaped sets |
| `StatusDerivation.VerdictsOfConcat` | consent-server/internal/consent/validator/consent.go:317-391 | status derivation is a homomorphism from lists under concatenation into the chain absent, approved, pending, rejected |
| `StatusDerivation.VerdictsIsMaximum` | consent-server/internal/consent/validator/consent.go:338-378 | the verdict of a list is the greatest verdict in it |
| `StatusDerivation.DeriveSeesOnlyParticipants` | consent-server/internal/consent/validator/consent.go:324-336 | order, duplicates, letter case and any recorded or system-set entries never change the outcome |
| `StatusDerivation.DeriveCharacterised` | consent-server/internal/consent/validator/consent.go:338-390 | rejected exactly when some status is the rejected one; active exactly when there is a participant and all participants are approved or empty; never expired or revoked |
| `StatusDerivation.DeriveWithoutParticipants` | consent-server/internal/consent/validator/consent.go:333-336 | without a participant the consent is created |
| `StatusDerivation.DefaultingKeepsDerivation` | consent-server/internal/consent/service.go:1388-1424 | storing the approved status where a request left it out does not change the derived status |
| `StatusDerivation.Evaluate` | consent-server/internal/consent/validator/consent.go:317-391 | the loop with its filtered slice and three flags computes the derived status |
| `Tables.ExecuteRefinesApply` | consent-server/internal/consent/store.go:303-393 | a statement on one consent does to its rows what it says and nothing to any other consent or the catalogue |
| `Tables.ExecuteSucceeds` | consent-server/internal/authresource/store.go:96-135 | a statement that suits the consent's own rows fails only on an identifier another consent holds |
| `Transactions.Registry.ExecuteTransaction` | consent-server/internal/system/stores/registry.go:55-100 | all steps in order and a commit, or no change: for every step list and every store failure, the committed tables and the answer are those of the step-list specification |
| `Transactions.FaultsDecide` | consent-server/internal/system/stores/registry.go:55-100 | a store failure that strikes the opening, the commit or one of the steps makes the transaction fail; failures that strike none of them change nothing |
| `Transactions.Registry.PerformStep` | consent-server/internal/system/stores/registry.go:80-91 | one closure issues its statements on the transaction's own copy and stops at the first failure |
| `Transactions.Registry.CheckAuthWrite` | consent-server/internal/authresource/service.go:139-176 | under the lock: consent found and open, resulting set valid, status derived from it |
| `TableRuns.TransactRefines` | consent-server/internal/system/stores/registry.go:55-100 | a transaction keyed by one consent moves only that consent's rows, exactly as the steps do on its record; without failures and clashes it commits exactly when they succeed |
| `StepLists.CreateRefines` | consent-server/internal/consent/service.go:217-284 | the create step list has exactly the create effect, or fails exactly where a key repeats |
| `StepLists.UpdateRefines` | consent-server/internal/consent/service.go:653-745 | the update step list, with each optional part present or absent, has exactly the update effect |
| `StepLists.RevokeRefines` | consent-server/internal/consent/service.go:813-846 | the revoke step list has exactly the revoke effect |
| `StepLists.ExpireRefines` | consent-server/internal/consent/service.go:1032-1076 | the expire step list has exactly the expire effect, and none on an expired consent |
| `StepLists.AddAuthRefines` | consent-server/internal/authresource/service.go:138-203 | the step list of an authorization addition has exactly its effect or its error |
| `StepLists.ChangeAuthRefines` | consent-server/internal/authresource/service.go:359-433 | the step list of an authorization change has exactly its effect or its error |
| `Invariants.EffectKeepsStatusAgreement` | consent-server/internal/consent/service.go:171-1093 | after every transaction: expired implies all authorizations are marked expired, revoked all marked revoked, any other status is the one the stored authorizations derive |
| `Invariants.EffectKeepsAuditChain` | consent-server/internal/consent/store.go:322-335 | audit rows are only appended and form a chain: first without previous status, each later one continuing and differing from its predecessor, the last equal to the consent's status |
| `Invariants.EffectKeepsShape` | consent-server/internal/consent/validator/consent.go:168-207 | every stored authorization set is empty, or has a non-recorded status and is free of delegation types or made of both of them only |
| `Invariants.EffectExplainsSystemStatuses` | consent-server/internal/authresource/service.go:452-551 | a stored system status always has an earlier expire or revoke audit row |
| `Invariants.EffectKeepsInvariant` | consent-server/internal/consent/service.go:171-1093 | all of these together, for create, update, revoke, expire and both authorization writes |
| `Invariants.RunKeepsInvariant` | consent-server/internal/consent/service.go:171-1093 | every record reachable by any sequence of transactions, failed ones included, keeps the whole invariant |
| `ClosedStates.ClosedIgnoresAuthWrites` | consent-server/internal/authresource/service.go:532-551 | on a revoked or expired consent any sequence of authorization writes leaves every row unchanged |
| `ClosedStates.ExitsFromRevoked` | consent-server/internal/consent/service.go:587-613 | revoked is left exactly by an expiry or by an update that replaces authorizations |
| `ClosedStates.ExitsFromExpired` | consent-server/internal/consent/service.go:581-613 | expired is left exactly by a revocation, an update that replaces authorizations, or one that renews the consent |
| `ClosedStates.RenewalWaits` | consent-server/internal/consent/service.go:596-609 | an expired consent renewed without authorizations becomes created, never active |
| `Integrity.EffectRecordsPreImage` | consent-server/internal/consent/service.go:108-145 | with history enabled every transaction that writes an existing consent records exactly its pre-image; no-ops record nothing |
| `Integrity.EffectKeepsLinks` | consent-server/internal/consent/service.go:1109-1219 | a consent links to existing purpose versions of its organization and has exactly one approval row per mapped element |
| `Integrity.LandedKeepsGood` | consent-server/internal/consent/service.go:171-1093 | a committed transaction keeps the lifecycle invariant, the links and the replaying history of every consent |
| `Integrity.ImplementedLands` | consent-server/internal/system/stores/registry.go:55-100 | running an implementing step list as a transaction has the transaction's effect on its consent and touches nothing else, or fails as a whole; without failing steps of its own it fails exactly when a store failure strikes |
| `StoredFields.CreateStores` | consent-server/internal/consent/service.go:171-284 | what a creation stores, field by field from the request: the consent row, each authorization with its defaults, one audit row, no history, and exactly the resolved links and approvals; the status is the one the stored authorizations stand for |
| `StoredFields.UpdateStoresRow` | consent-server/internal/consent/service.go:615-690 | an update replaces exactly the fields the request gives, keeps identity, group and creation time, and audits a changed status |
| `StoredFields.UpdateStoresStatus` | consent-server/internal/consent/service.go:581-612 | after an update the status is the one the stored authorizations stand for when they were replaced or an expired consent is no longer overdue, and unchanged otherwise |
| `StoredFields.UpdateStoresRest` | consent-server/internal/consent/service.go:690-745 | attributes, authorizations, links and approvals are each replaced as given or left alone, and the history gains the consent as it was, with its row, attributes, authorizations and catalogue data |
| `StoredFields.RevokeStores` | consent-server/internal/consent/service.go:782-857 | which of the three errors refuses a revocation; otherwise only status and time change, every authorization is marked and keeps its other fields, and audit and history carry actor and reason |
| `StoredFields.ExpireStores` | consent-server/internal/consent/service.go:1017-1093 | an expiry leaves an expired consent alone; otherwise only status and time change, every authorization is marked, and one audit and one history row by the system are added |
| `StoredFields.AddAccepted` | consent-server/internal/authresource/service.go:67-203 | an authorization is refused exactly for a system status, a missing or closed consent, an ill-shaped resulting set or a used identifier, each with its error |
| `StoredFields.AddStores` | consent-server/internal/authresource/service.go:138-203 | an addition appends the row the request stands for, and the consent gets the status all of them stand for |
| `StoredFields.ChangeAccepted` | consent-server/internal/authresource/service.go:287-433 | a change is refused exactly for a system status, a missing or closed consent, or an ill-shaped resulting set when status or type changes |
| `StoredFields.ChangeStores` | consent-server/internal/authresource/service.go:359-433 | a change stores the status, user and resources given and keeps those left out, the identifier and the type; every other authorization is unchanged, and the consent gets the status all of them stand for |
| `StoredFields.RejectingRejects` | consent-server/internal/authresource/service.go:359-433 | setting the rejected status on one authorization of an open consent rejects the consent |
| `PurposeResolution.FindPurpose` | consent-server/internal/consent/service.go:1122-1136 | group first, then organization level, finds the one purpose of that name visible to the group, or there is none |
| `PurposeResolution.FindVersion` | consent-server/internal/consent/service.go:1122-1158 | the version a reference stands for: the numbered one, or the latest |
| `PurposeResolution.ChosenIsUnique` | consent-server/internal/consentpurpose/service.go:83-170 | a reference stands for at most one version in the union of both scopes |
| `PurposeResolution.IndexRequest` | consent-server/internal/consent/service.go:1165-1171 | later entries of a request for the same element override earlier ones |
| `PurposeResolution.ApprovalIsAsked` | consent-server/internal/consent/service.go:1185-1209 | by position: the approval of an element is the flag and value of the last entry that names it, not approved and without value if none does, and its value is checked exactly then |
| `PurposeResolution.BuildApprovals` | consent-server/internal/consent/service.go:1185-1209 | one approval per mapped element, with flag and value of the last request entry for it or not approved; refused exactly when a value so given does not fit |
| `PurposeResolution.ResolvePurpose` | consent-server/internal/consent/service.go:1109-1219 | succeeds exactly when the purpose, the version, the named elements and the values all fit, with exactly the mapped elements |
| `PurposeResolution.ResolvePurposes` | consent-server/internal/consent/service.go:1109-1219 | succeeds exactly when every purpose of the request resolves, in order |
| `ConsentService.Open` | consent-server/internal/system/stores/registry.go:39-51 | a server starts in a state that has every invariant |
| `ConsentService.RunFor` | consent-server/internal/system/stores/registry.go:55-100 | a call lands its whole effect as one step of a system run, or changes nothing and reports the failure |
| `ConsentService.ExpireConsent` | consent-server/internal/consent/service.go:1017-1093 | expires the consent once, under the lock; all or nothing |
| `ConsentService.AutoExpire` | consent-server/internal/consent/service.go:288-298 | expires the consent if and only if it is overdue, not yet expired, and no store failure strikes the opening, the commit or one of the four closures; otherwise everything stays as it was |
| `ConsentService.CreateConsent` | consent-server/internal/consent/service.go:171-306 | nothing is stored unless everything is; what is stored is the create effect with resolved purposes, expired at once when created overdue; refused exactly on unacceptable authorizations or purposes |
| `ConsentOutcomes.CreateFresh` | consent-server/internal/consent/service.go:171-306 | with fresh identifiers and no store failure, a creation succeeds if and only if its authorizations are accepted, its purposes resolve, and no two of them stand for the same version |
| `ConsentService.GetConsent` | consent-server/internal/consent/service.go:313-353 | the current state after expiring an overdue consent; the answer shows exactly what the tables hold about it |
| `ReadModel.ViewShows` | consent-server/internal/consent/service.go:1312-1384 | in every reachable state a read shows the stored row, exactly the stored attributes with their values, the authorization rows in order, exactly the linked versions with the fields of their catalogue rows, and exactly the approval rows with element fields, mandatory flag, approval and value |
| `ReadModel.SelectInOrder` | consent-server/internal/authresource/store.go:96-135 | authorizations are shown in the order of their rows |
| `ConsentService.CheckUpdate` | consent-server/internal/consent/service.go:557-651 | everything an update checks before its transaction: exactly when it passes, and which of the three errors a refusal answers with |
| `ConsentService.DecideStatus` | consent-server/internal/consent/service.go:581-612 | the status an update leads to: derived from new authorizations, re-derived on renewal, otherwise kept |
| `ConsentService.UpdateConsent` | consent-server/internal/consent/service.go:547-775 | refused calls change nothing; accepted ones have exactly the update effect, followed by an expiry when overdue |
| `ConsentOutcomes.Renew` | consent-server/internal/consent/service.go:547-775 | an expired consent updated with an expiry that has not passed stores that expiry and is no longer expired, whatever else the update does |
| `ConsentService.RevokeConsent` | consent-server/internal/consent/service.go:782-857 | answers and acts exactly as the revoke effect |
| `AuthService.CreateAuthResource` | consent-server/internal/authresource/service.go:67-214 | adds the authorization the request stands for, field by field, answers with it and moves the consent to the derived status; any error leaves everything |
| `AuthService.UpdateAuthResource` | consent-server/internal/authresource/service.go:287-445 | answers with the authorization as asked for, given fields replaced and others kept; stores it but for the type, leaves every other one, and gives the consent the status they stand for, rejected when the request rejects; any error leaves everything |
| `AuthService.AuthByIdFinds` | consent-server/internal/authresource/service.go:304-314 | looking an authorization up by identifier and then checking its consent finds exactly the authorization of that consent |
| `AuthService.UpdateReadsBackExactly` | consent-server/internal/authresource/store.go:57-61 | the answer of an update is what was stored if and only if the request leaves the type as it is, because the statement does not write the type |
| `AuthService.TypeChangeIsDropped` | consent-server/internal/authresource/store.go:57-61 | a type change that is accepted and not stored |
| `ExpirationJob.SelectionAgreesExactly` | consent-server/internal/consent/store.go:1073-1117 | the job's selection agrees with IsConsentExpired on an eligible consent if and only if its expiry is not the zero that means none, or the clock has not started (now is at most zero) |
| `ExpirationJob.ZeroExpirationIsSelected` | consent-server/internal/consent/store.go:1073-1117 | the job selects an eligible consent whose stored expiry is zero, although reading that consent never expires it |
| `ExpirationJob.ExpireOne` | consent-server/internal/consent/expiration_job.go:49-68 | one iteration settles its consent and survives a failure |
| `ExpirationJob.RunExpirationJob` | consent-server/internal/consent/expiration_job.go:30-70 | for any selection and any failures: every consent is untouched or just expired with all authorizations marked and one new audit row, unselected ones are untouched, and each selected one is expired or, exactly when its own expiry met a failure, untouched |
| `ExpirationJob.RerunSelectsOnlyExpired` | consent-server/internal/consent/expiration_job.go:30-70 | after a run whose expiries met no failure, what the job would select again is expired already |
| `ExpirationJob.RunJobTwice` | consent-server/internal/consent/expiration_job.go:30-70 | two runs in a row without failures: after the first every selected consent is expired, and the second changes nothing |
| `ConsentValidation.JoinsLoseNothing` | consent-server/internal/consent/service.go:1312-1384 | with the catalogue sound no linked version and no approval row is lost in a join |
| `ConsentValidation.BuildPurposes` | consent-server/internal/consent/service.go:1312-1384 | the output shows every linked version with exactly its mapped elements and their approvals |
| `ConsentValidation.OutputDecidesMandatory` | consent-server/internal/consent/service.go:916-934 | the loop over the output blocks exactly when some mandatory element of a linked version is not approved |
| `ConsentValidation.ValidateConsent` | consent-server/internal/consent/service.go:864-947 | valid if and only if the consent is found active, every mandatory element of every linked version is approved, and it is not overdue or its expiry runs into a store failure; the tables afterwards are the expired ones exactly when it is overdue and no such failure strikes; a refusal for approvals names exactly the unapproved mandatory elements |
| `ConsentValidation.OutputNamesUnapproved` | consent-server/internal/consent/service.go:916-934 | a name is collected if and only if the tables hold a mandatory element of that name, mapped to a linked version, without approval |
| `ConsentOutcomes.StoredApprovalsAreAsked` | consent-server/internal/consent/service.go:1109-1219 | a created consent has an approved row for every mandatory element if and only if the last entry of the request for each of them approves it |
| `ConsentOutcomes.CreateThenValidate` | consent-server/internal/consent/service.go:864-947 | a consent created and then validated is valid if and only if it was created active, its request approves every mandatory element of its purposes, and it is not overdue by then or its expiry runs into a store failure |
| `OverdueConsent.OverdueIsCalledValid` | consent-server/internal/consent/service.go:864-947 | on a server that starts empty: a consent created with an expiry of ten and validated at eleven while the second closure of its expiry fails is overdue and called valid |
| `Interleaving.MoveKeepsSerial` | consent-server/internal/consent/service.go:1032-1076 | one closure, failure or commit of any transaction keeps the lock exclusive, every running transaction on course, and the committed record serial |
| `Interleaving.InterleavingIsSerial` | consent-server/internal/consent/service.go:1032-1076 | under every schedule of any number of authorization additions and expiries the committed record is the serial run of the committed ones in commit order |
| `Interleaving.InterleavingKeepsInvariant` | consent-server/internal/authresource/service.go:138-203 | every committed state of every schedule keeps the lifecycle invariant and the audit chain |
| `Interleaving.ExpiriesAddOneRow` | consent-server/internal/consent/service.go:1032-1076 | all expirations together add exactly one expired audit row once any commits on a consent not yet expired, and nothing to an expired one |
| `Interleaving.LockIsReleased` | consent-server/internal/consent/store.go:416-445 | when no transaction is running a waiting one can begin: the lock never outlives its transaction |
| `CatalogEffects.TransactCatalog` | consent-server/internal/system/stores/registry.go:55-100 | a catalogue transaction commits its statements' joint effect and nothing else |
| `CatalogEffects.RunCreateVersion` | consent-server/internal/consentpurpose/service.go:230-243 | creating a version succeeds exactly when its identifier is new and no element version is mapped twice, and then adds exactly the row and its mappings |
| `CatalogEffects.MappedExactlyOnce` | consent-server/internal/consentpurpose/service.go:230-243 | a new version maps an element version exactly when it is listed, mandatory exactly when it is listed so |
| `CatalogEffects.DropUndoesCreate` | consent-server/internal/consentpurpose/service.go:347-402 | deleting a version just created restores the catalogue exactly |
| `VersionNumbers.NumberReturnsIffLatest` | consent-server/internal/consentpurpose/service.go:173-227 | after a version is deleted, the next number of its purpose falls to the deleted one or below if and only if the deleted version was the latest |
| `VersionNumbers.SameNumberNext` | consent-server/internal/consentpurpose/service.go:173-227 | the deleted number itself comes next if and only if the deleted version was the latest and the number one below it is in use |
| `VersionNumbers.ElementNumberReturnsIffLatest` | consent-server/internal/consentelement/service.go:207-286 | the same for element versions: numbers are given out again if and only if the deleted version was the latest |
| `VersionNumbers.SameElementNumberNext` | consent-server/internal/consentelement/service.go:207-286 | the deleted number of an element comes next if and only if it was the latest and the number one below it is in use |
| `VersionNumbers.CreateDeleteCreate` | consent-server/internal/consentpurpose/service.go:173-402 | creating a version, deleting it and creating another gives the second the number of the first, in every state the system reaches |
| `VersionNumbers.NumberTwoTwice` | consent-server/internal/consentpurpose/service.go:173-402 | on a server that starts empty: an element, a purpose over it, and version two of the purpose given to two different versions |
| `CatalogEffects.ViewKept` | consent-server/internal/consent/store.go:495-518 | as long as its linked versions are kept, a consent stands and reads as before |
| `CatalogRuns.AllowedKeepsSound` | consent-server/internal/consentpurpose/service.go:83-227 | the guards of every catalogue call suffice for soundness: mappings join existing rows of one organization, version numbers within an identifier differ, a name is one organization-level purpose or at most one per group |
| `CatalogRuns.AllowedPassesIndexes` | consent-server/internal/consentpurpose/service.go:83-227 | the row a guarded call adds shares neither identifier and number nor name, scope and number with a stored row of its organization, so the unique indexes of the schema never refuse it |
| `CatalogRuns.AllowedKeepsGood` | consent-server/internal/consentpurpose/service.go:347-448 | a guarded catalogue call keeps every consent invariant, touches no consent and changes no version row it leaves in place |
| `CatalogRuns.SystemRunKeepsGood` | consent-server/internal/consentpurpose/service.go:347-448 | in every state of every run of consent and catalogue calls: lifecycle invariant, audit chain, intact links, exact approvals, unambiguous names and numbers, and snapshots followed by the current state equal to the committed states |
| `CatalogRuns.LinkedVersionsNeverChange` | consent-server/internal/consentpurpose/service.go:347-448 | as long as a consent stays linked to a purpose version, that version, its elements and their mandatory flags never change |
| `ElementReferences.DupKeyExact` | consent-server/internal/consentpurpose/service.go:484-493 | two references collide exactly when they say the same, provided names and namespaces have no bar |
| `ElementReferences.RivalIffMistakable` | consent-server/internal/consentpurpose/service.go:484-493 | a reference has the same key as one that says something else if and only if it has a version number, a bar in its name, or a bar inside its namespace and not at the end |
| `ElementReferences.DifferentElementsRefused` | consent-server/internal/consentpurpose/service.go:484-493 | references to two different existing elements that are refused together because of a bar |
| `ElementReferences.ResolveElement` | consent-server/internal/consentpurpose/service.go:496-519 | the latest version of the named element, or exactly the numbered one; none exactly when there is none |
| `ElementReferences.ResolveElements` | consent-server/internal/consentpurpose/service.go:470-533 | accepts exactly non-empty lists with distinct keys that all stand for versions, in order |
| `ElementReferences.DistinctVersions` | consent-server/internal/consentpurpose/service.go:470-533 | no element version is mapped twice exactly when no two references stand for the same version |
| `CatalogService.CreatePurpose` | consent-server/internal/consentpurpose/service.go:83-170 | succeeds exactly when the request fits, the name is free in group and organization, and the references resolve to different versions; stores version one with the fields of the request and maps exactly the versions referred to with their mandatory flags; otherwise nothing changes and the error is that of the first failing check, on MySQL an existing name where two references stand for one version |
| `CatalogService.CreatePurposeVersion` | consent-server/internal/consentpurpose/service.go:173-227 | appends the current maximum plus one under the purpose's own name and group, or changes nothing and answers with the first failing check |
| `CatalogService.DeletePurposeVersion` | consent-server/internal/consentpurpose/service.go:347-402 | not found, in use exactly when a consent links it, or exactly that version gone |
| `CatalogService.AnyVersionUsed` | consent-server/internal/consentpurpose/service.go:424-434 | the guard loop finds a used version exactly when there is one |
| `CatalogService.DeletePurpose` | consent-server/internal/consentpurpose/service.go:406-448 | not found, in use exactly when a consent links any version, or all versions gone |
| `CatalogService.RunDropVersion` | consent-server/internal/consentpurpose/service.go:377-396 | deleting a version, and the purpose with its last one, deletes that row and its mappings and nothing more |
| `ElementService.CreateElement` | consent-server/internal/consentelement/service.go:92-132 | succeeds exactly when the request fits and the name is free in its namespace, and stores version one with the fields of the request, the namespace defaulted |
| `ElementService.CreateElementsInBatch` | consent-server/internal/consentelement/service.go:73-90 | each item is answered on its own: a name goes to the first item that asks for it and succeeds; failed items leave nothing |
| `ElementService.CreateElementVersion` | consent-server/internal/consentelement/service.go:207-244 | appends the current maximum plus one under the element's own name and type |
| `ElementService.DeleteElementVersion` | consent-server/internal/consentelement/service.go:248-286 | not found, in use exactly when a purpose maps it, or exactly that version gone |
| `Like.EscapedIsLiteral` | consent-server/internal/consent/store.go:1232-1244 | an escaped name in a pattern matches itself, character by character, and nothing else |
| `Like.LikeIsExact` | consent-server/internal/consent/store.go:1232-1244 | the generated pattern matches a text if and only if the text contains the name: on SQLite and Postgres for every name, on MySQL for every name without a backslash |
| `Like.MySqlExactIffNoBackslash` | consent-server/internal/consent/store.go:1239-1242 | on MySQL the pattern is exact for all texts if and only if the name has no backslash |
| `Placeholders.ConvertToPostgresParams` | consent-server/internal/system/database/utils/querybuilder.go:27-39 | the loop numbers the placeholders |
| `Placeholders.KthPlaceholder` | consent-server/internal/system/database/utils/querybuilder.go:31-34 | the k-th placeholder becomes `$k`, the text before and after it is treated on its own |
| `Placeholders.NumberedKeeps` | consent-server/internal/system/database/utils/querybuilder.go:35-36 | text without placeholders is unchanged |
| `Placeholders.DialectsBindAlike` | consent-server/internal/system/database/utils/querybuilder.go:27-39 | numbered and positional reading agree on characters and arguments if and only if no placeholder runs into a digit |
| `SearchQuery.BuildSearch` | consent-server/internal/consent/store.go:828-974 | for every filter combination the conditions and both argument lists grow together, condition by condition |
| `SearchQuery.PlaceholdersAligned` | consent-server/internal/consent/store.go:834-974 | in front of each condition stand as many placeholders as earlier conditions contributed arguments, and its own arguments come next |
| `SearchQuery.SearchBindsAlike` | consent-server/internal/consent/store.go:978-1016 | count and data statements have as many placeholders as arguments and bind the same values on Postgres |
| `SearchMeaning.PositionsBind` | consent-server/internal/consent/store.go:834-1018 | evaluating with positional arguments gives every condition its own arguments |
| `SqlMeaning.WordsMeanCondition` | consent-server/internal/consent/store.go:834-974 | the words of every condition, read as tests and subqueries over the rows of the tables, hold exactly when the condition is evaluated to hold; columns, operators, joins and aliases included |
| `StatementMeaning.JoinMeansHeld` | consent-server/internal/consent/store.go:876-925 | the joined authorizations are exactly those the consent holds |
| `StatementMeaning.WordsMeanOrder` | consent-server/internal/consent/store.go:1033-1071 | the words of an ORDER BY key compare two consents by the column and in the direction of the key |
| `StatementMeaning.WordsMeanClause` | consent-server/internal/consentpurpose/store.go:427-504 | the words of every list clause hold on a row exactly when the clause is evaluated to hold |
| `StatementMeaning.WordsMeanLatest` | consent-server/internal/consentpurpose/store.go:439-447 | joining the grouped subquery keeps exactly the greatest version of each identifier in the organization |
| `StatementMeaning.WordsMeanHead` | consent-server/internal/consentpurpose/store.go:432-447 | head and subquery of a list read the rows of its own table, restricted to the organization |
| `Like.EscapeIsNamed` | consent-server/internal/consent/store.go:1232-1244 | the ESCAPE clause names the character the patterns are read with |
| `SearchMeaning.AnswersExactlyAsSearched` | consent-server/internal/consent/store.go:860-920 | for every filter: the joined rows contain a consent exactly when one single authorization satisfies users, role and types together, some authorization is the delegate subject, and every other filter holds, the given statuses replaced by their upper-case spelling |
| `SearchMeaning.DelegatedHasDelegate` | consent-server/internal/consent/store.go:879-914 | a search for delegated consents answers only with consents where one delegate authorization satisfies users and types, a search for the others where one primary authorization does |
| `SearchMeaning.AnswersExactlyWanted` | consent-server/internal/consent/store.go:860-920 | when the given statuses are in upper case, the joined rows contain a consent exactly when it is what the filter as given asks for |
| `SearchMeaning.StatusFilterExactly` | consent-server/internal/consent/store.go:860-867 | the status filter admits the statuses it names and no others if and only if they are in upper case |
| `SearchMeaning.OneStatusIsFound` | consent-server/internal/consent/store.go:860-867 | a consent that a filter with one status asks for is found if and only if that status is in upper case |
| `SearchMeaning.StatusSearchExactIff` | consent-server/internal/consent/store.go:860-867 | a search by statuses alone answers exactly what it is asked for, whatever is stored, if and only if they are in upper case |
| `SearchMeaning.SearchIsExact` | consent-server/internal/consent/store.go:992-1016 | the DISTINCT query returns exactly the consents asked for, the statuses in the filter upper-cased |
| `SearchMeaning.CountIsSize` | consent-server/internal/consent/store.go:976-989 | the count query answers with the number of consents the data query selects |
| `SearchOrder.BuildOrderBy` | consent-server/internal/consent/store.go:1033-1071 | the loop builds the keys of the clause |
| `SearchOrder.OrderIsAsked` | consent-server/internal/consent/store.go:1048-1060 | the clause orders field by field with no expiration as latest, whatever the database does with NULL |
| `SearchOrder.FieldsCompare` | consent-server/internal/consent/store.go:1033-1046 | what each field sorts by: times by value, no expiration last, texts in dictionary order |
| `SearchOrder.DirectionsAndFields` | consent-server/internal/consent/store.go:1033-1046 | the six fields and two directions understood, descending being ascending turned round |
| `SearchOrder.DefaultIsNewestFirst` | consent-server/internal/consent/store.go:1064-1070 | without sorts the newest come first, then the smaller identifier |
| `SearchOrder.OrderIsTotal` | consent-server/internal/consent/store.go:1064-1070 | every sort list orders consents with different identifiers strictly and totally |
| `SearchOrder.ResultIsUnique` | consent-server/internal/consent/store.go:1064-1070 | the selected consents can be listed in one order only |
| `SearchOrder.PagesConcatenate` | consent-server/internal/consent/store.go:1001-1010 | consecutive pages concatenate to the whole sorted result |
| `SearchOrder.PagesAreDisjoint` | consent-server/internal/consent/store.go:1001-1010 | no consent is on two pages |
| `ConsentSearch.GoodIsKeyed` | consent-server/internal/consent/service.go:196-212 | in every reachable state a consent is stored under its own identifier, which the search relies on |
| `ConsentSearch.ResultsAgree` | consent-server/internal/consent/store.go:1001-1016 | separate queries, on any database, return the same rows in the same order |
| `ConsentSearch.SearchIsComplete` | consent-server/internal/consent/store.go:828-1031 | the pages together hold exactly the consents asked for, the statuses in the filter upper-cased, in the order asked for, and the count is how many there are |
| `ConsentSearch.LowerCaseStatusIsNotFound` | consent-server/internal/consent/store.go:860-867 | a configuration that loads and is fit for use, with an active status in lower case, whose search for active consents finds none of them |
| `ListQuery.BuildPurposeList` | consent-server/internal/consentpurpose/store.go:427-504 | for every filter combination clauses and arguments grow together |
| `ListQuery.BuildElementList` | consent-server/internal/consentelement/store.go:305-362 | for every filter combination clauses and arguments grow together |
| `ListQuery.ListPlaceholdersAligned` | consent-server/internal/consentpurpose/store.go:427-504 | in front of each clause stand as many placeholders as arguments were contributed before it, the organization of the subquery included |
| `ListQuery.ListBindsAlike` | consent-server/internal/consentelement/store.go:341-360 | count and data statement of both lists have as many placeholders as arguments and bind the same values on Postgres |
| `ListMeaning.ListIsExact` | consent-server/internal/consentpurpose/store.go:427-504 | a list returns exactly the versions of the organization that are the latest of their identifier, or have the given number, and satisfy every filter |
| `ListMeaning.ListedOnce` | consent-server/internal/consentelement/store.go:305-362 | on a sound catalogue a list shows every purpose or element at most once |
| `SortParsing.ParseConsentSorts` | consent-server/internal/consent/handler.go:568-643 | the loop with its seen set accepts exactly up to three well-formed items for different fields, or the default |
| `SortParsing.AcceptedIsKnown` | consent-server/internal/consent/handler.go:579-586 | every accepted list is understood completely by the ORDER BY clause |
| `SortParsing.NoDirectionDescends` | consent-server/internal/consent/handler.go:568-643 | an item without a direction sorts descending, white space around it or not |
| `SortParsing.DirectionIsRead` | consent-server/internal/consent/handler.go:568-643 | asc and desc are read as such, white space around them or not, and any other direction is refused |
| `SortParsing.ParseRoundTrip` | consent-server/internal/consent/handler.go:568-643 | any list of up to three sorts by different fields, written out and parsed, is itself |
| `BatchLoading.PopulateVersion` | consent-server/internal/consentpurpose/store.go:511-524 | loads exactly one version's properties and, up to order, its joined elements |
| `BatchLoading.HasElementsExactly` | consent-server/internal/consentpurpose/store.go:610-648 | loaded means: every element as often as mapping rows of the version name it, with the stored element row and the flag of the mapping |
| `BatchLoading.BatchPopulateProperties` | consent-server/internal/consentpurpose/store.go:571-606 | the last entry for an identifier gets exactly its properties, any other entry none |
| `BatchLoading.BatchPopulateElements` | consent-server/internal/consentpurpose/store.go:610-648 | the last entry for an identifier gets exactly its elements up to order, any other entry none |
| `BatchLoading.PopulateVersionSlice` | consent-server/internal/consentpurpose/store.go:528-545 | both, in place, without touching anything else of an entry |
| `BatchLoading.SliceIsOneByOne` | consent-server/internal/consentpurpose/store.go:528-545 | in a slice of distinct versions every entry is what loading that version alone gives |

## Left out

- HTTP handling, JSON and headers: only the sort parameter, the difference between absent and empty lists, and the
  authorization part of consent request validation are modelled; its other field checks (lengths, formats) are not.
- JSON Schema, XSD and XML validation of element values, schemas and properties: a function parameter decides them.
- UUIDs and clocks: parameters. Catalogue calls require new identifiers to be unused, as the generator promises; consent
  and authorization identifiers may clash, and then the call fails.
- Strings are ASCII, since upper-casing and case-insensitive comparison disagree outside it. SQL compares strings
  exactly and orders them by code; a case-insensitive collation is not modelled, except in LIKE.
- Tables.ExecuteSucceeds: does not enforce the primary keys of audit and history rows, whose identifiers each call
  generates anew.
- Foreign keys and the unique indexes on version numbers and names: not enforced by the model, since every call the
  services let through respects the indexes (`CatalogRuns.AllowedPassesIndexes`) and the joins
  (`CatalogRuns.AllowedKeepsSound`).
- Times and reason texts of audit rows: the time a call takes twice is one value, and the reason of an authorization
  write is a constant.
- Several failing reads before a transaction: one flag says whether they fail, and the first one reached then does.
- A commit that fails is rolled back; a panic inside a closure counts as its failure.
- Serialisability of consent updates, revocations and authorization updates under interleaving: they read before their
  transaction, so they are modelled one call at a time.
- Interleaving.InterleavingIsSerial: covers one consent and a fixed catalogue; the lock is per consent, and transactions
  on different consents touch different rows.
- The bulk status update of the authorization service, which no route reaches and which bypasses derivation and audit.
- Properties of purposes and elements live in their version rows, except in `batch_loading`, where they are the rows
  the queries return. Loading element properties in batch is the same loop as loading purpose properties.
- Order and pages of the purpose and element lists; page stability of the purpose list, which orders by name only, is
  not claimed.
- The default limit and offset of a search, the total of an empty search page, which the service reports as zero, and
  the details loaded for the consents of a page.
- The column lists and the frame of the count and data statements: only their placeholders. What the conditions, joins,
  order keys and list heads mean is modelled (`sql_meaning`, `statement_meaning`).
- Search by attribute, group identifiers by user, and the read-only get calls of the catalogue.
- Nil configuration, DSN building, connection pools, row scanning, logging, scheduling and the nested transactioner.
