# Verification of auth-backend

A Dafny model of the parts of auth-backend that decide something, with proofs of what they promise:

* **the log scrubber** (`app/core/redaction.py`, and its place in `app/core/logging.py`): four regular
  expression rewrites, a cut at 2000 characters, and a depth-capped walk over nested values;
* **the multi-tenant schema** (`alembic/versions/20260101_0900_initial_schema.py` and the table models) as a
  database that refuses statements: foreign keys with their delete actions, composite keys, unique and
  partial unique indexes, and deletes that cascade;
* **the offline drift check** (`scripts/check_migration_drift.py`) and the reading of `cors_origins`
  (`app/core/config.py`), which reuse the same matcher.

`dafny verify dfyconfig.toml` checks everything.

## How the model is laid out

| module | what it holds |
|---|---|
| `Regex` | patterns as sequences of items, their declarative meaning (`Parse`), the backtracking matcher, `re.sub` as one scan, and the reading of a scan as gaps and matches |
| `Characters` | what `\s`, `\w` and a literal under IGNORECASE stand for, code point by code point |
| `Redaction` | the four patterns, `ScrubText`, and what any match looks like |
| `RedactionSafety` | one pass: it clears its own pattern and keeps every other pattern clear |
| `RedactionTheorems` | all passes and the cut: cleanness, fixpoints, lengths, idempotence |
| `Credentials` | the four patterns again, as plain statements about slices of text, and the same safety in those terms |
| `Zones` | what the passes take away, told on the input alone, and the proof that the four passes take away just that |
| `Secrets` | one credential: exactly when it is taken whole, and which kinds can split which |
| `Unseen` | two texts that differ only in a secret that is taken whole are scrubbed alike |
| `Spelled` | the four credentials spelled out without the patterns, and what becomes of a text that is one |
| `OpeningCredential` | a text that opens with a credential and holds nothing else for the passes |
| `RedactionExample`, `SplitExample` | texts that show where the results stop |
| `NestedScrub`, `ScrubTheorems` | `scrub` on values |
| `ObjectGraph` | `scrub` on heaps in which containers may hold themselves |
| `Logging` | the event, the request context, and the two processors |
| `Schema` | rows, keys, foreign keys, index entries, and when a database is consistent |
| `Cascade` | what a delete means, by paths of cascading references |
| `Database` | statements, and the object that executes them with its indexes maintained |
| `Runs` | transactions and runs |
| `Tenancy` | grants, owners, isolation, deleting tenants and scopes |
| `Accounts` | addresses of live users, signing keys |
| `RowRules` | inserts and deletes table by table, told on rows alone |
| `ParentLinks` | what the schema itself keeps of parent links and families |
| `TokenFamilies` | rotation chains of refresh tokens over whole runs |
| `Drift`, `Ddl` | name collection from DDL; what it collects, told on the text |
| `Config` | CORS origins |

Matching is stated on the text that remains and one bit about the character before it, which is all that
`\b` can see. All results hold over full Unicode text: white space and the letters that IGNORECASE folds
into ASCII are written out, and the tables of further `\w` characters and of `str.lower` are parameters
(`Alphabet`), so a result holds whatever they contain.

Three promises are not met in full, and the exact extent is proved instead:

* *Nothing in a log line is a token.* It holds of every ASCII text. On other text the cut can complete a JWT:
  when the run of word characters that it splits goes on to one outside ASCII, the uncut text holds no match
  and the cut one does. `CutIsClean` and `ScrubTextIsClean` give the condition, both ways;
  `CutCanExposeAToken` gives a text.
* *A token of the input disappears whole.* It need not: a hit that starts before it can take its head, and
  the rest, which is no credential any more, stays. The hit can be of the same kind (`TokenHidesAKeyword`,
  `TokenHidesAToken`) or of an earlier one. `ScrubAllFills` says on the input alone what is taken: of each
  kind in turn the longest credentials from left to right, in what the kinds before have left. So a maximal
  credential is taken whole by its own pass exactly when no earlier kind removes a part of it and none of its
  own kind that is taken reaches past its start (`WholeExactlyWhen`; for one pass,
  `HitExactlyWhenUncovered`). Of the six pairs of kinds four can split, and a text shows each: bearer a basic
  credential (`BearerHidesBasic`), basic a JWT or a refresh token (`SchemeTakesOnlyTheHead`,
  `BasicHidesRefresh`), JWT a refresh token (`JwtHidesRefresh`). In the other two a bearer token takes the
  later credential whole (`BearerSwallows`). And of a secret that goes whole, with no hit of an earlier kind
  touching it, nothing at all shows in the output (`SecretDoesNotShow`), which is so for every credential that
  no other overlaps (`LoneIsAlone`).
* *`family_id` is constant across a rotation chain, and parent links form chains.* The schema checks neither
  (`TokenInsert`). An accepted insert keeps the links acyclic exactly when the row does not name itself as its
  parent, and keeps them within families exactly when it has the family of its parent; an accepted update
  keeps them acyclic exactly when the new parent is neither the row nor below it, and within families exactly
  when the families above and below agree with the row's; nothing else can break them (`InsertStaysAcyclic`,
  `InsertStaysOneFamily`, `UpdateStaysAcyclic`, `UpdateStaysOneFamily`, `OthersKeepLinks`). They hold in every
  run of transactions that writes token rows the way the table is described, whatever is deleted in between
  (`FamiliesInEveryRun`).

## Model

| member | source | states |
|---|---|---|
| Regex.MatchIsGreediest | app/core/redaction.py:35-38 | the backtracking matcher finds a match whenever the pattern has any reading of the text, and finds the one that greediness prefers over every other |
| Regex.CutExists | app/core/redaction.py:46-51 | every text reads as match-free gaps separated by greediest matches |
| Regex.CutIsUnique | app/core/redaction.py:46-51 | in only one way |
| Regex.SubRendersCut | app/core/redaction.py:46-51 | a substitution yields the same gaps in the same order with each match replaced |
| Credentials.PatternMeans | app/core/redaction.py:35-38 | each pattern matches exactly where a credential of its kind stands: scheme, white space and at least eight token characters; three joined parts after `eyJ`; `rt1_` and at least eight |
| Characters.WordIsText | app/core/redaction.py:35-36 | a word under IGNORECASE matches its letters in either case, and for s and i the long and the dotless and dotted variants |
| Characters.WordIsSpelled | app/core/redaction.py:35-38 | the word characters that a boundary looks at: in ASCII letters, digits and the underscore, and never white space |
| Spelled.StandsIsSpelledOut | app/core/redaction.py:35-38 | a credential stands in a text exactly where one is spelled out: keyword, white space and token characters given one by one, lengths as numbers, and the boundaries before it and after a JWT |
| Spelled.SchemeIsScrubbed | app/core/redaction.py:35-48 | `bearer` or `basic` in any case, any white space and at least eight token characters become the word as typed and the marker |
| Spelled.JwtIsScrubbed | app/core/redaction.py:37-49 | three parts of at least five characters after `eyJ`, the last ending in a letter, digit or underscore, become the marker |
| Spelled.RefreshIsScrubbed | app/core/redaction.py:38-50 | `rt1_` and at least eight characters become the marker exactly when no JWT stands in them |
| Redaction.ReplacementShape | app/core/redaction.py:47-50 | a match of an HTTP scheme keeps its keyword as typed and loses the rest; a bare token is replaced whole |
| RedactionSafety.PassKeepsFree | app/core/redaction.py:47-50 | a pass leaves no match of its own pattern and brings back no match of any other pattern, for all sixteen pairs |
| RedactionTheorems.PassesClear | app/core/redaction.py:47-50 | passes in any order leave no match of any pattern whose pass has run |
| RedactionTheorems.CutIsClean | app/core/redaction.py:51 | cutting a clean text at any position leaves it clean unless the cut falls just after a three-part token and the word run across it leaves ASCII; bearer, basic and refresh matches never appear |
| RedactionTheorems.ScrubTextIsClean | app/core/redaction.py:46-51 | for every text, the output holds no match of any pattern if and only if the cut does not expose a token; it never holds a bearer, basic or refresh match |
| RedactionTheorems.ScrubTextIsCleanOnAscii | app/core/redaction.py:46-51 | for every ASCII text, and every text whose word characters are ASCII, the output holds no match at all |
| RedactionTheorems.ScrubTextFixpoint | app/core/redaction.py:46-51 | a text comes back unchanged exactly when it is clean and has at most 2000 characters |
| RedactionTheorems.CleanIsOnlyCut | app/core/redaction.py:46-51 | a text without matches loses nothing but what is beyond 2000 characters |
| RedactionTheorems.ScrubTextIdempotent | app/core/redaction.py:46-51 | scrubbing twice is scrubbing once, exactly when the cut exposed nothing, so for every ASCII text |
| RedactionTheorems.ScrubLength | app/core/redaction.py:46-51 | the text before the cut grows by at most 136/105, and the result has at most 2000 characters |
| Credentials.NoCredentialSurvives | app/core/redaction.py:33-51 | in terms of slices alone: for an ASCII text, no credential of any kind stands anywhere in the output |
| Credentials.DiagnosticsSurvive | app/core/redaction.py:46-51 | a text is left alone exactly when no credential stands in it and it is short enough |
| RedactionExample.CutCanExposeAToken | app/core/redaction.py:37-51 | a text whose output ends in a complete JWT, which a second run would remove |
| Zones.MatchIsLongest | app/core/redaction.py:35-38 | the match at a position is the longest credential that stands there |
| Zones.PassFills | app/core/redaction.py:47-50 | from any position on, a pass over a text in which zones are already replaced replaces exactly the zones of its kind, each by its marker, and keeps the keyword |
| Zones.PassTakes | app/core/redaction.py:47-50 | one pass puts a marker in place of exactly the zones that its kind takes of the input |
| Zones.ScrubAllFills | app/core/redaction.py:46-50 | the four passes, each over the output of the one before, equal one replacement of zones of the input: of each kind in turn the longest credentials from left to right in what the kinds before have left |
| Secrets.HitExactlyWhenUncovered | app/core/redaction.py:47-50 | the hits of a pass are what its kind takes; a maximal credential is a hit exactly when no hit that starts before it reaches past its start |
| Secrets.TakenIsReplaced | app/core/redaction.py:47-50 | of a credential that is taken, its pass leaves the keyword and the marker |
| Secrets.SplitKinds | app/core/redaction.py:46-50 | what an earlier kind removes meets a credential of a later kind only by starting before it, or as a JWT inside a refresh token |
| Secrets.BearerSwallows | app/core/redaction.py:35-38 | a bearer token that meets a JWT or a refresh token takes all of it |
| Secrets.WholeExactlyWhen | app/core/redaction.py:46-50 | a maximal credential of the input is taken whole exactly when no earlier kind removes a part of it and none of its own kind that is taken reaches past its start |
| Secrets.TakenIsGone | app/core/redaction.py:46-50 | and then the scrubbed text is what is left of the text before its secret, the marker, and what is left of the text after it |
| Unseen.SecretDoesNotShow | app/core/redaction.py:1-7 | two texts that differ only in a secret that is taken whole and touched by no earlier kind, of whatever length, have the same output |
| Unseen.LoneIsAlone | app/core/redaction.py:1-7 | every credential that none of its own or of an earlier kind overlaps is such a secret |
| SplitExample.TokenHidesAKeyword | app/core/redaction.py:35-47 | a bearer credential whose keyword is taken by the token before it, and whose secret stays |
| SplitExample.TokenHidesAToken | app/core/redaction.py:37-49 | a JWT whose first part is taken by the JWT before it, and whose other parts stay |
| SplitExample.SchemeTakesOnlyTheHead | app/core/redaction.py:36-49 | a JWT after the word `basic`, whose last two parts stay |
| SplitExample.BearerHidesBasic | app/core/redaction.py:35-48 | a basic credential whose keyword is taken by a bearer token, and whose secret stays |
| SplitExample.BasicHidesRefresh | app/core/redaction.py:36-50 | a refresh token whose head is taken by a basic token, and whose rest stays |
| SplitExample.JwtHidesRefresh | app/core/redaction.py:37-50 | a refresh token whose head is taken by a JWT, and whose rest stays |
| ScrubTheorems.ScrubAt | app/core/redaction.py:54-68 | down any path without sensitive keys and above the cap, the output holds the scrubbed part of the input, and the marker at the cap |
| ScrubTheorems.OutputOrigin | app/core/redaction.py:54-68 | every part of the output is the marker, or the scrubbed part at the same place of the input, reached without a sensitive key |
| ScrubTheorems.AsciiOutputIsClean | app/core/redaction.py:54-68 | no string at any depth of the output matches any pattern, for a value whose strings are ASCII |
| ScrubTheorems.SecretsDoNotShow | app/core/redaction.py:57-65 | replacing anything under a sensitive key, or below the cap, by anything else does not change the output |
| ScrubTheorems.OutputTellsExactly | app/core/redaction.py:54-68 | two values give one output exactly when they look alike: same shape, keys and scrubbed text outside sensitive keys and above the cap |
| ScrubTheorems.ScrubIdempotent | app/core/redaction.py:54-68 | at every depth, scrubbing twice is scrubbing once exactly when no string that is read is exposed by its cut |
| ScrubTheorems.CapOnlyPrunes | app/core/redaction.py:54-68 | on a value that stays above the cap, the result is that of the recursion without a cap |
| ScrubTheorems.OutputNesting | app/core/redaction.py:57-58 | the output nests at most seven containers |
| ScrubTheorems.ScrubFromTop | app/core/redaction.py:54-68 | under at most six containers and no sensitive key a string comes back scrubbed and another value as it was; the seventh level and what is under a sensitive key are the marker |
| ScrubTheorems.SensitiveExactly | app/core/redaction.py:17-43 | an ASCII key is sensitive exactly when one of the ten names can be read in it, in any case |
| ScrubTheorems.SensitiveAnywhere | app/core/redaction.py:17-43 | any key in which one of them can be read is sensitive |
| ScrubTheorems.SensitiveFolds | app/core/redaction.py:41-43 | a character outside ASCII counts for what `str.lower` makes of it |
| ScrubTheorems.SensitiveInside | app/core/redaction.py:41-43 | a sensitive name stays sensitive inside any longer key |
| ScrubTheorems.SensitiveIgnoresCase | app/core/redaction.py:41-43 | keys that differ only in the case of ASCII letters are alike sensitive |
| ObjectGraph.ScrubUnrolled | app/core/redaction.py:54-68 | for every object graph, cyclic or not, the result is that for any tree unrolled from it down to the cap |
| ObjectGraph.CallsBounded | app/core/redaction.py:55-58 | with at most b children an object there are at most 1 + b + ... + b^7 calls |
| Logging.LogEvent.InjectContext | app/core/logging.py:28-40 | each id that is set ends up in the event, keys stay distinct, and every other field is as it was |
| Logging.LogEvent.Process | app/core/logging.py:28-58 | the ids that are set are logged scrubbed, every other field of the event is logged redacted under its key, no key is dropped or moved, and if the event and the ids are ASCII no string at any depth of what is logged matches any pattern |
| Logging.RedactIsScrub | app/core/redaction.py:71-76 | redacting an event is scrubbing it as a dictionary one level above the rest |
| Logging.LogTellsExactly | app/core/redaction.py:71-76 | two events are logged alike exactly when they look alike |
| Logging.LogIsClean | app/core/redaction.py:71-76 | no string at any depth of a logged event whose strings are ASCII matches any pattern |
| Cascade.RestrictionOnlyAtRoot | alembic/versions/20260101_0900_initial_schema.py:101-190 | no row that a delete reaches by cascades is restricted, except possibly its root |
| Cascade.RefusedExactlyAtRoot | alembic/versions/20260101_0900_initial_schema.py:101-190 | a delete is refused exactly when a row restricts its root |
| Cascade.WithoutIsConsistent | alembic/versions/20260101_0900_initial_schema.py:101-228 | deleting a set of rows closed under cascades and restricted by nothing, with set-null references cleared, leaves every constraint satisfied and no reference dangling |
| Database.InsertCheck | alembic/versions/20260101_0900_initial_schema.py:101-190 | checking the new row and one index entry decides whether the whole state after an insert satisfies every constraint |
| Database.UpdateCheck | alembic/versions/20260101_0900_initial_schema.py:101-190 | the same for an update, with the rows that referred to the old row, since no key has an ON UPDATE action |
| Database.Database.InsertRow | alembic/versions/20260101_0900_initial_schema.py:75-148 | succeeds exactly when the resulting state satisfies every constraint, changes nothing otherwise, and keeps the indexes equal to the rows |
| Database.Database.UpdateRow | alembic/versions/20260101_0900_initial_schema.py:75-148 | the same for an update, a change of primary key included |
| Database.Database.DeleteRow | alembic/versions/20260101_0900_initial_schema.py:101-228 | the worklist terminates, removes exactly the rows reached by cascading references, clears exactly the set-null references into them, in any order of work, and restores the state when it is refused |
| RowRules.InsertIsAccepted | alembic/versions/20260101_0900_initial_schema.py:75-378 | for every table: an insert is accepted exactly when its key is unused, the rows it needs are there (for a grant, of the tenant it names), and no row has the slug, live address, role key, hash, client id or active status that only one may have |
| RowRules.UpdateIsAccepted | alembic/versions/20260101_0900_initial_schema.py:75-378 | for every table: an update is accepted exactly when its key is its own or unused, the rows it needs are there, no other row has what only one may have, and the rows that name the old one can live with the new; then it replaces that row and nothing else |
| RowRules.DeleteExactly | alembic/versions/20260101_0900_initial_schema.py:101-378 | for every table: a delete is accepted unless a user names the tenant or a role grants the scope; with a user go its grants and tokens, with a role its scopes and grants, with a client its secrets, with a tenant its roles and clients and theirs, and nothing else; the other rows stay as they were but for a template or parent that is gone |
| Runs.RunKeepsConsistent | alembic/versions/20260101_0900_initial_schema.py:28-378 | every state that any run of transactions reaches satisfies every constraint |
| Tenancy.GrantsAreLocalInEveryRun | app/models/user_role.py:34-46 | in every state of every run, the user, the role and the tenant of a grant agree |
| Tenancy.EdgeKeepsOwner | alembic/versions/20260101_0900_initial_schema.py:136-190 | no cascade leaves the tenant it starts in |
| Tenancy.ScopesAreGiven | app/models/user_role.py:34-46 | on rows: a user has a scope exactly when one of its roles is given it |
| Tenancy.GrantAddsScopes | app/models/user_role.py:34-46 | an accepted grant gives its user exactly the scopes of the role, and no other user anything |
| Tenancy.StatementIsolation | app/models/user_role.py:1-7 | a statement that names no row of a tenant changes no effective scope of its users, by what it writes or by what it cascades to |
| Tenancy.TenantIsolation | app/models/user_role.py:1-7 | the same over whole runs of transactions |
| Tenancy.RowIsolation | app/models/user_role.py:1-7 | such a statement leaves the tenant exactly the rows it had, each unchanged but for references that a delete sets to null |
| Tenancy.RowIsolationInRuns | app/models/user_role.py:1-7 | the same over whole runs of transactions |
| Tenancy.TenantDelete | alembic/versions/20260101_0900_initial_schema.py:101-103 | a tenant can be deleted exactly when no user row names it, soft-deleted rows included |
| Tenancy.TenantDeleteRemoves | alembic/versions/20260101_0900_initial_schema.py:136-190 | what goes with it is exactly what it owns, and that holds no user, grant, refresh token or verification token |
| Tenancy.ScopesAreCataloguedInEveryRun | app/models/role_scope.py:18-26 | in every state of every run, every effective scope of every user is in the catalogue |
| Tenancy.ScopeDelete | alembic/versions/20260101_0900_initial_schema.py:157-164 | a scope can be deleted exactly when no role grants it, and then nobody's effective scopes change |
| Accounts.IndexIsScan | app/models/user.py:63-74 | the maintained unique indexes are exactly what a scan of the rows would build |
| Accounts.UserInsert | app/models/user.py:63-74 | a new user is refused exactly when the id is in use, the tenant does not exist, or a live user of the tenant has the address |
| Accounts.UserUpdate | app/models/user.py:63-74 | renaming, soft-deleting, undeleting or moving a user is refused exactly when two live users would share an address, the new tenant does not exist, or the user would leave grants behind |
| Accounts.AddressReuse | alembic/versions/20260101_0900_initial_schema.py:109-117 | an address held by a live user is refused to a newcomer, and available once the holder is soft-deleted |
| Accounts.OneActiveKeyInEveryRun | app/models/signing_key.py:43-54 | in every state of every run at most one signing key is active |
| Accounts.KeyUpdate | app/models/signing_key.py:43-54 | a status change is refused exactly when it would make a second key active |
| Accounts.RotationCommits | alembic/versions/20260101_0900_initial_schema.py:321-327 | retiring one key and promoting another commits exactly when no third key is active, and otherwise leaves everything as it was |
| Accounts.SecondRotationLoses | alembic/versions/20260101_0900_initial_schema.py:321-327 | of two rotations away from one key the later is refused and rolled back |
| ParentLinks.TokenInsert | app/models/refresh_token.py:33-43 | a token row is refused exactly when its id or hash is in use, its user does not exist, or its parent neither exists nor is the row itself |
| ParentLinks.InsertStaysAcyclic | app/models/refresh_token.py:41-43 | an accepted insert keeps the parent links acyclic exactly when the row does not name itself |
| ParentLinks.InsertStaysOneFamily | app/models/refresh_token.py:33-43 | it keeps every link in one family exactly when the row has no parent, is its own, or has the family of its parent |
| ParentLinks.UpdateStaysAcyclic | app/models/refresh_token.py:41-43 | an accepted update keeps the links acyclic exactly when the row's parent is neither the row nor one below it |
| ParentLinks.UpdateStaysOneFamily | app/models/refresh_token.py:33-43 | it keeps every link in one family exactly when the row has the family of its parent and the tokens right below have the family of the row |
| ParentLinks.OthersKeepLinks | alembic/versions/20260101_0900_initial_schema.py:196-231 | deletes of any kind and statements on other tables keep both |
| ParentLinks.SchemaAdmitsCycle | app/models/refresh_token.py:41-43 | a row that names itself as its parent is accepted and closes a cycle |
| ParentLinks.SchemaAdmitsMixedFamily | app/models/refresh_token.py:33-43 | a row whose parent is of another family is accepted |
| TokenFamilies.ChainsAreForest | app/models/refresh_token.py:1-5 | parent links lead to existing tokens of one family and never return to where they began |
| TokenFamilies.FamilyIsChain | app/models/refresh_token.py:1-5 | a query for a token's family returns exactly the surviving tokens that descend from its login |
| TokenFamilies.FamiliesInEveryRun | app/models/refresh_token.py:1-43 | after every disciplined run of transactions the links are acyclic and within families, every chain of links leads to existing tokens of one family, and a family query returns the surviving tokens of one login, whatever users, tokens or tenants are deleted on the way |
| TokenFamilies.RotationIsAtomic | app/models/refresh_token.py:1-52 | storing the next token and marking the old one as used commits exactly when the new id and hash are unused and the user exists; refused, it leaves neither rows nor history changed |
| TokenFamilies.RotationIsDisciplined | app/models/refresh_token.py:1-52 | a rotation under a new id that commits is disciplined, and its token continues the chain of the old one |
| Drift.FindAllJoin | scripts/check_migration_drift.py:30-53 | what is found in two texts joined by a newline is what is found in the one followed by what is found in the other |
| Drift.NamesOfTwo | scripts/check_migration_drift.py:39-53 | the names of two joined texts are the union of their names |
| Drift.NamesIgnoreOrder | scripts/check_migration_drift.py:39-53 | the order and repetition of DDL statements do not change the names |
| Ddl.KeywordNames | scripts/check_migration_drift.py:30-44 | a text that opens with a keyword in any case, and a name, yields that name unless it is ignored, and the names of the rest; for tables, constraints, and plain and unique indexes |
| Ddl.OthersAreSkipped | scripts/check_migration_drift.py:30-44 | where no keyword with a name starts, the first character does not matter |
| Ddl.ListNames | scripts/check_migration_drift.py:30-53 | from statements with one keyword each, joined by newlines, exactly their names are collected |
| Ddl.DifferenceIsDrift | scripts/check_migration_drift.py:69-92 | lists of such statements that name different things give status 1 |
| Drift.StatementsInOrder | scripts/check_migration_drift.py:47-53 | a table gives its own DDL and then that of its indexes, and tables come one after the other |
| Drift.ModelSql | scripts/check_migration_drift.py:47-53 | the text is the DDL of every table, each followed by that of its indexes, joined by newlines |
| Drift.Check | scripts/check_migration_drift.py:69-92 | the status is 0 exactly when all three name sets agree, 1 when they do not, and 2 when the migrations could not be rendered |
| Config.CommaSeparates | app/core/config.py:145-147 | the origins of two settings joined by a comma are those of the one followed by those of the other |
| Config.PaddedOrigin | app/core/config.py:145-147 | an origin with white space around it is read as that origin |
| Config.BlankIsNoOrigin | app/core/config.py:145-147 | white space alone is no origin |
| Config.OriginsAreClean | app/core/config.py:145-147 | every origin is non-empty, trimmed and free of commas |
| Config.OriginsRoundTrip | app/core/config.py:145-147 | every list of such origins is read back from its comma-joined form |
| Config.SettingRoundTrip | app/core/config.py:145-147 | reading a setting, writing it back and reading it again gives the same list |

## Left out

- ScrubTextIsCleanOnAscii: stated for texts whose word characters are ASCII because it is false beyond them; ScrubTextIsClean gives the exact condition for all texts.
- NoCredentialSurvives: speaks of the shape of the output only, as the other cleanness results do; what becomes of a credential of the input is in Zones, Secrets and Unseen.
- SecretDoesNotShow: asks that no hit of an earlier kind touches the credential, its keyword included, because a keyword at the end of one secret can make the text after it another.
- ScrubAllFills: stated for the text before the cut at 2000 characters; the output is its prefix of at most that length.
- FamiliesInEveryRun: assumes that token rows are inserted under fresh ids with an existing parent and its family, or with a fresh family, and that updates leave these columns alone; the service code that writes them is not in the repository.
- RotationIsAtomic: the two statements of a rotation are those the table's comments describe; the service code that issues them is not in the repository.
- RotationCommits: the two statements of a rotation are those the state machine of `app/models/signing_key.py` describes; the code that issues them is not in the repository.
- TenantIsolation: transactions run one after the other; how PostgreSQL interleaves them under its isolation levels is taken as given.
- Strings with unpaired surrogates, which Dafny's characters do not include.
- The dependence of `str.lower` on position for the letter sigma; no sensitive name contains one.
- Values of other types (numbers, bytes, sets, objects) are one opaque kind, since `scrub` returns them as they are.
- Keys of dictionaries, which are never scrubbed, and log fields that are added after redaction.
- Columns that no key, foreign key or index reads, column types, defaults, timestamps, and the CHECK constraints on status, slug, purpose and reason.
- `granted_by`, `role_templates.default_scopes` and the tenant columns of refresh and verification tokens carry no foreign key, and nothing is claimed of them.
- The tables for audit events, throttling and revocation events, which nothing refers to.
- The creation and drop order of the migration and its seed rows: a fixed finite list; the runs start from any consistent state.
- `_refuse_unsafe_production` and the other validators of `app/core/config.py`: single-branch facts.
- The lines that `main` of the drift check prints, and the rendering of DDL by SQLAlchemy and Alembic.
- `clear_request_context`, `configure_logging` apart from the order of its processors, and the processors that other libraries supply.
- HTTP handling, sessions, the command line and database connections.
