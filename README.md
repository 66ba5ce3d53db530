# LaciSynchroni server core, modelled in Dafny

This project models three pieces of the LaciSynchroni synchronization server and proves properties of them.

- **Secret-key authenticator** (`SecretKeyAuth`, `secret_key_authenticator.dfy`).
  - Clients authorize with a hashed secret key, or with a UID vouched for by an OAuth-verified primary UID.
  - Every request first passes the address check `ShouldFailIp`.
  - A shared per-address failure map counts failed attempts.
  - `AuthenticationFailure` bumps a counter unless the address matches a whitelist entry.
  - The address check schedules a one-shot reset of a record once its counter passes the threshold. The reset later removes the record.
  - The service is a class. Its failure map is a `map` field, and the pending reset continuations are a ghost multiset. The invariant `Valid()` ties the two together: the pending resets are exactly the scheduled records, one each.
  - The Auth table is a sequence of rows. `SingleOrDefault` and `Single` become a three-way `Lookup`, and their exceptions become `Threw` outcomes.
  - Ban resolution (`BuildReply`, `ResolveAccount`, `KeyDecision`, `OauthDecision`) is pure.
- **Message service** (`Messages`, `message_service.dfy`).
  - The message of the day is interpolated and keeps its severity.
  - The periodic message is picked by execution number with C#'s truncating `%`.
  - `InterpolateString` chains four ordinal `Replace` calls.
  - Configuration and system values are parameters.
- **Discord wizard** (`LaciWizard`, `laci_wizard.dfy`).
  - `ParseCharacterIdFromLodestoneUrl` is modelled as the unanchored regular-expression match, followed by `Split('/', RemoveEmptyEntries).Last()` and `int.TryParse`.
  - Also modelled: the list of home-menu actions and the menu picker's dispatch by id.

The `.NET` primitives these rely on are modelled in `Strings` (`strings.dfy`):

- ordinal `IndexOf`/`Contains`;
- `Contains` with `OrdinalIgnoreCase`;
- `Replace`;
- `Split` with `RemoveEmptyEntries`;
- `int.TryParse`;
- `int.ToString`.

`Wrappers` holds an `Option` type that stands for nullable references.

Three behaviours of the code shape the model:

- **The address check never blocks a known address.** Despite its name, and despite the `TempBan` warning it logs at line 104, `ShouldFailIp` returns `false` for every non-null address (line 117). A record over the threshold only gets its counter reset scheduled.
- **Banned accounts succeed.** `GetAuthReply` sets `Success` to `authReply != null` (line 71). A found account is therefore returned as a success, with `Permaban` or `MarkedForBan` set.
- **Lookups can throw.** `SingleOrDefaultAsync` throws when two rows match, and `SingleAsync` throws when a primary link resolves to no row or to several. The model keeps these as `Threw` outcomes.

## Model

| member | source | states |
|---|---|---|
| SecretKeyAuth.Where | AuthService/Services/SecretKeyAuthenticatorService.cs:53-54 | a query keeps exactly the rows satisfying its predicate, and no more rows than the table has |
| SecretKeyAuth.SingleOrDefault | AuthService/Services/SecretKeyAuthenticatorService.cs:53-54 | no row is found exactly when none matches; a found row is in the table, matches, and is the only matching value; the query throws exactly when two distinct rows match |
| SecretKeyAuth.WhereTwo | AuthService/Services/SecretKeyAuthenticatorService.cs:53-54 | a query selects two or more rows exactly when two distinct rows match |
| SecretKeyAuth.SingleOrDefaultOnlyMatch | AuthService/Services/SecretKeyAuthenticatorService.cs:37 | a query matching exactly one row finds that row |
| SecretKeyAuth.BuildReply | AuthService/Services/SecretKeyAuthenticatorService.cs:60-73 | success exactly when an account was found; never a temp ban; UID, primary UID (own UID when unlinked) and alias ("" when absent); the ban and pending-ban flags are the OR of the account's and its linked primary's |
| SecretKeyAuth.ResolveAccount | AuthService/Services/SecretKeyAuthenticatorService.cs:58-85 | a missing account is rejected, and only then; an unlinked account is accepted as built; a linked account is accepted with its primary's row, or aborts when `SingleAsync` finds no row or several |
| SecretKeyAuth.KeyDecision | AuthService/Services/SecretKeyAuthenticatorService.cs:52-55 | rejected exactly when no row has the key; an accepted reply succeeds, is no temp ban, and carries the UID of a row with that key; the one row holding the key gets ResolveAccount's decision for it, and several rows holding it abort |
| SecretKeyAuth.UidDecision | AuthService/Services/SecretKeyAuthenticatorService.cs:40-42 | rejected exactly when no row has the UID; an accepted reply succeeds, is no temp ban, and carries that UID; the one row with the UID gets ResolveAccount's decision for it, and several rows with it abort |
| SecretKeyAuth.OauthDecision | AuthService/Services/SecretKeyAuthenticatorService.cs:36-42 | an unknown primary UID is rejected; a rejection means the primary or the requested UID is unknown; an acceptance needs an existing primary and reports the requested UID; with exactly one primary row the decision is UidDecision's for the requested UID, and with several it aborts |
| SecretKeyAuth.OutcomeOf | AuthService/Services/SecretKeyAuthenticatorService.cs:75-84 | an accepted decision returns its reply, a rejection becomes the failure reply, an aborted one throws its fault; only an accepted decision yields a successful reply |
| SecretKeyAuth.PendingResetsExact | AuthService/Services/SecretKeyAuthenticatorService.cs:102-113 | under the service invariant, every scheduled record has exactly one pending reset and every pending reset belongs to a scheduled record |
| SecretKeyAuth.Whitelisted | AuthService/Services/SecretKeyAuthenticatorService.cs:125-126 | an address is whitelisted when some configured entry occurs in it, ignoring case |
| SecretKeyAuth.AfterCheck | AuthService/Services/SecretKeyAuthenticatorService.cs:99-106 | the failure map after the address check: a record strictly over the threshold with no reset scheduled gets one scheduled |
| SecretKeyAuth.AfterFailure | AuthService/Services/SecretKeyAuthenticatorService.cs:126-135 | the failure map after a failure: unchanged for a whitelisted address, otherwise the counter is raised or a fresh record created |
| SecretKeyAuth.CheckKeepsCounters | AuthService/Services/SecretKeyAuthenticatorService.cs:99-117 | the address check keeps every key and every counter, changes no other address, and marks the address scheduled exactly when it was already scheduled or its counter is strictly above the threshold |
| SecretKeyAuth.CheckIdempotent | AuthService/Services/SecretKeyAuthenticatorService.cs:102-106 | an already scheduled record is left alone, and checking twice equals checking once |
| SecretKeyAuth.FailureEffect | AuthService/Services/SecretKeyAuthenticatorService.cs:125-136 | a whitelisted address leaves the map unchanged; any other address gets its counter raised by one (scheduled mark kept) or a fresh record, and no other address changes |
| SecretKeyAuth.FailureAfterReset | AuthService/Services/SecretKeyAuthenticatorService.cs:110-135 | after the reset removes a record, the next failure from an address that is not whitelisted at that call creates a fresh record |
| SecretKeyAuth.CountAfterFailures | AuthService/Services/SecretKeyAuthenticatorService.cs:128-135 | n >= 1 failures from a new, non-whitelisted address leave a record counting InitialAttempts + n - 1 with no reset, and other addresses untouched |
| SecretKeyAuth.ResetAfterFailures | AuthService/Services/SecretKeyAuthenticatorService.cs:99-102 | after n >= 1 failures from a new, non-whitelisted address, the check schedules a reset exactly when InitialAttempts + n - 1 exceeds the threshold |
| SecretKeyAuth.DefaultConfigTempBan | AuthService/Services/SecretKeyAuthenticatorService.cs:100-126 | under the default settings (threshold 5, empty whitelist) no address is whitelisted, and n >= 1 failures from a new address schedule a reset exactly from the sixth on |
| SecretKeyAuth.KeyFindsAccount | AuthService/Services/SecretKeyAuthenticatorService.cs:52-55 | an unlinked account that is the only row holding the key is accepted with the reply built from its own row |
| SecretKeyAuth.BannedAccountSucceeds | AuthService/Services/SecretKeyAuthenticatorService.cs:71-73 | a banned unlinked account that is the only row holding the key is accepted, with success and the permaban flag both set |
| SecretKeyAuth.OauthMatchesKey | AuthService/Services/SecretKeyAuthenticatorService.cs:36-55 | when the primary UID, the requested UID and the key each pick out one row, the OAuth path decides for the requested UID exactly as the key path decides for that row's key |
| SecretKeyAuth.SecondaryInheritsBan | AuthService/Services/SecretKeyAuthenticatorService.cs:62-72 | a secondary account that is the only row holding its key, whose primary UID is held by exactly one row, is accepted on the key path, reports its primary's UID and carries the OR of its own and its primary's ban flags |
| SecretKeyAuth.OauthIgnoresLink | AuthService/Services/SecretKeyAuthenticatorService.cs:37-42 | any two primary UIDs each held by exactly one row give the same decision for a requested UID: the link between them is not checked |
| SecretKeyAuth.SecretKeyAuthenticatorService.constructor | AuthService/Services/SecretKeyAuthenticatorService.cs:18-27 | the failure map starts empty, with no pending reset |
| SecretKeyAuth.SecretKeyAuthenticatorService.ShouldFailIp | AuthService/Services/SecretKeyAuthenticatorService.cs:95-118 | fails exactly a null address; for any other address the map becomes AfterCheck of the old map, and one pending reset is added exactly when this call schedules it |
| SecretKeyAuth.SecretKeyAuthenticatorService.FailOnIp | AuthService/Services/SecretKeyAuthenticatorService.cs:87-93 | the temp-ban reply for a null address and none otherwise, with the check's effect on the map |
| SecretKeyAuth.SecretKeyAuthenticatorService.ResetFailedAuthorization | AuthService/Services/SecretKeyAuthenticatorService.cs:110-113 | the pending reset removes exactly that address's record and its pending entry |
| SecretKeyAuth.SecretKeyAuthenticatorService.AuthenticationFailure | AuthService/Services/SecretKeyAuthenticatorService.cs:120-139 | returns the failure reply, the map becomes AfterFailure of the old map, and the failure metric goes up by one |
| SecretKeyAuth.SecretKeyAuthenticatorService.GetAuthReply | AuthService/Services/SecretKeyAuthenticatorService.cs:58-85 | the outcome of ResolveAccount; a missing account records a failure, a found one leaves the map alone; the success metric and the cache gauge go up by one exactly on a successful reply |
| SecretKeyAuth.SecretKeyAuthenticatorService.AuthorizeAsync | AuthService/Services/SecretKeyAuthenticatorService.cs:45-56 | null address: temp-ban reply, map untouched; otherwise the address check, then the outcome of KeyDecision, with a failure recorded exactly on rejection; the reply is a temp ban exactly for a null address; the failure metric is untouched for a null address, and the success metric and cache gauge go up by one exactly on a successful reply |
| SecretKeyAuth.SecretKeyAuthenticatorService.AuthorizeOauthAsync | AuthService/Services/SecretKeyAuthenticatorService.cs:29-43 | the same as AuthorizeAsync, with OauthDecision: an unknown primary UID records a failure without looking up the requested UID; the same metric effects |
| Strings.IndexOf | AuthService/Services/SecretKeyAuthenticatorService.cs:126 | the leftmost occurrence of the pattern, or none when it occurs nowhere |
| Strings.ContainsIgnoreCase | AuthService/Services/SecretKeyAuthenticatorService.cs:126 | the OrdinalIgnoreCase `Contains` holds exactly when the lower-cased pattern occurs somewhere in the lower-cased text |
| Strings.ContainsIgnoreCaseAt | AuthService/Services/SecretKeyAuthenticatorService.cs:126 | a whitelist entry occurring in the address, up to ASCII case, makes the OrdinalIgnoreCase `Contains` hold |
| Strings.Replace | Server/Services/MessageService.cs:40-43 | text without the pattern is unchanged; otherwise the text up to the first occurrence is kept and followed by the value; with ReplaceEvery, every occurrence is replaced |
| Strings.ReplaceAbsent | Server/Services/MessageService.cs:40-43 | replacing a pattern that does not occur returns the text unchanged |
| Strings.ReplaceWhole | Server/Services/MessageService.cs:40-43 | text that is exactly the pattern becomes the value |
| Strings.ReplaceEvery | Server/Services/MessageService.cs:40-43 | every occurrence is replaced: pieces without the pattern's first character, separated by the pattern, come out separated by the value |
| Strings.IndexOfAfterFree | Server/Services/MessageService.cs:40-43 | the search for a pattern passes over text that lacks its first character: an occurrence first found at i in what follows is first found at i plus the length of that text |
| Strings.ReplaceSelf | Server/Services/MessageService.cs:40-43 | replacing a pattern by itself returns the text unchanged |
| Strings.Split | Services/Discord/LaciWizardModule.cs:587 | the pieces number one more than the separators, and text without a separator is a single piece |
| Strings.JoinSplit | Services/Discord/LaciWizardModule.cs:587 | joining the pieces of `Split` with the separator gives back the text |
| Strings.LastNonEmptySegment | Services/Discord/LaciWizardModule.cs:587 | the last piece kept by `RemoveEmptyEntries` is never empty; empty text has none, and text without a separator is its own last piece |
| Strings.LastSegmentOfTail | Services/Discord/LaciWizardModule.cs:587 | for text ending in `/` followed by a non-empty piece without `/`, `Split('/', RemoveEmptyEntries).Last()` is that piece |
| Strings.TryParseInt | Services/Discord/LaciWizardModule.cs:588-591 | succeeds exactly on a non-empty run of digits whose value fits in an `int`, and then gives that value |
| Strings.ValueLeadingZero | Services/Discord/LaciWizardModule.cs:588 | a leading zero does not change the value of a digit run |
| Strings.ValueDecimal | Server/Services/MessageService.cs:43 | reading back the decimal rendering of a number gives the number |
| Strings.IntToString | Server/Services/MessageService.cs:43 | the rendering is a digit string with that value and no leading zero (except "0" itself), preceded by `-` for a negative number |
| Strings.DecimalUnique | Server/Services/MessageService.cs:43 | a digit string without a leading zero is the rendering of its own value |
| Strings.TryParseIntToString | Server/Services/MessageService.cs:43 | parsing the rendering of a non-negative `int` gives the number back |
| Messages.InterpolateString | Server/Services/MessageService.cs:38-44 | a null text stays null, and only a null text becomes null; with InterpolateEveryServerName, every server-name placeholder is substituted |
| Messages.InterpolateNoPlaceholders | Server/Services/MessageService.cs:40-43 | text containing none of the four placeholders is returned unchanged |
| Messages.InterpolateServerNameToken | Server/Services/MessageService.cs:40 | the server-name placeholder becomes the server name, to which the three later substitutions then apply |
| Messages.InterpolateEveryServerName | Server/Services/MessageService.cs:40-43 | every occurrence of the server-name placeholder, between pieces without `%`, becomes a server name without `%` |
| Messages.LaterPlaceholderInValue | Server/Services/MessageService.cs:40-42 | a server name of `%ShardName%` comes out as the shard name, when the shard name holds no `%OnlineUsers%` |
| Messages.EarlierPlaceholderInValue | Server/Services/MessageService.cs:40-42 | a shard name of `%ServerName%` comes out literally |
| Messages.GetMessageOfTheDay | Server/Services/MessageService.cs:11-16 | the severity is kept, the text is the interpolated text, a null text stays null, and a text without placeholders is unchanged |
| Messages.CSharpRemainder | Server/Services/MessageService.cs:27 | C#'s `%` is Dafny's for a non-negative dividend; for a negative one it is zero exactly on multiples and otherwise the Euclidean remainder minus the divisor |
| Messages.GetNextPeriodicMessage | Server/Services/MessageService.cs:18-29 | null exactly when no message is configured; for a non-negative execution number, the entry at `n % count` with its severity and interpolated text; an out-of-range index exactly for a negative number that is not a multiple of the count; the first entry for a negative multiple of the count |
| Messages.PeriodicRotation | Server/Services/MessageService.cs:27 | non-negative execution numbers n and n + count, both within `int` range, give the same message |
| Messages.DefaultMessageMentions | Server/Services/MessageService.cs:11-16 | the default message of the day holds the server-name, shard-name and online-users placeholders, so it is interpolated |
| Messages.PeriodicInOrder | Server/Services/MessageService.cs:27 | execution numbers 0 to count - 1 give the messages in order |
| LaciWizard.MatchAt | Services/Discord/LaciWizardModule.cs:581 | the pattern matches at a position: the `https://` scheme, one of the five regions, the fixed host and path, then a digit |
| LaciWizard.DigitRunEnd | Services/Discord/LaciWizardModule.cs:581 | `\d+` takes the maximal run of digits |
| LaciWizard.FindMatch | Services/Discord/LaciWizardModule.cs:582 | the leftmost start at which the pattern matches, or none when it matches nowhere |
| LaciWizard.ParseCharacterIdFromLodestoneUrl | Services/Discord/LaciWizardModule.cs:579-594 | the id is never negative, and text without a match gives null |
| LaciWizard.ParseFirstMatch | Services/Discord/LaciWizardModule.cs:586-593 | the id is the value of the whole digit run of the first match, or null when that exceeds the range of `int` |
| LaciWizard.EmbeddedUrlMatches | Services/Discord/LaciWizardModule.cs:581-586 | a profile URL embedded in text, with no digit right after it, matches where it starts, and the match ends with its digits |
| LaciWizard.ParseIgnoresSurroundingText | Services/Discord/LaciWizardModule.cs:582-588 | the match is unanchored: with no earlier match and no digit right after the URL, surrounding text does not change the parsed id (a following digit would join the greedy digit run) |
| LaciWizard.BareUrlNoLaterMatch | Services/Discord/LaciWizardModule.cs:581 | in a bare profile URL the pattern can match only at the start |
| LaciWizard.UnknownRegionRejected | Services/Discord/LaciWizardModule.cs:581 | a profile URL on a two-letter sub-domain other than na, eu, de, fr and jp gives null |
| LaciWizard.LeadingZerosAllowed | Services/Discord/LaciWizardModule.cs:588 | leading zeros in the id are accepted and do not change it |
| LaciWizard.MenuPicker | Services/Discord/LaciWizardModule.cs:346-376 | a dispatched page is the one offered under that id |
| LaciWizard.MenuPickerInverse | Services/Discord/LaciWizardModule.cs:349-375 | each page's id dispatches to that page, and an id is dispatched exactly when it is one of the seven page ids |
| LaciWizard.HomeActions | Services/Discord/LaciWizardModule.cs:272-288 | every offered id is dispatched; Register is offered exactly without an account, Block Mod exactly to an admin with an account; with an account, Delete comes last |
| LaciWizard.HomeMenus | Services/Discord/LaciWizardModule.cs:272-288 | the three possible menus, in order: register only; userinfo, recover, secondary, vanity, delete; the same with blockmod before delete for an admin |

## Left out

- Asynchrony is not modelled: awaits, `ConcurrentDictionary` thread-safety, and races between a reset and a concurrent failure. Operations run one at a time.
- The reset timer runs `Task.Delay` for `TempBanDurationInMinutes` and then removes the record. Here it is an explicit `ResetFailedAuthorization` call, allowed only while a reset is pending. The duration is carried in the configuration but never read.
- Metrics are ghost counters. Logging is dropped.
- The database context is a sequence of Auth rows, each carrying its user's alias.
- `SecretKeyFailedAuthorization` is not part of this model.
  - InitialAttempts: a fresh record's counter is assumed to start at 1.
  - The counter is an unbounded integer; 32-bit overflow after about two billion failures is not modelled.
- Strings.ContainsIgnoreCaseAt: case folding covers ASCII letters only, not the full Unicode folding of `OrdinalIgnoreCase`.
- Strings.TryParseInt: covers runs of ASCII digits only. The sign, whitespace and culture forms of `int.TryParse` are not modelled; the regular expression never passes them.
- LaciWizard.DigitRunEnd: `\d` matches ASCII digits only, not every Unicode decimal digit.
- Messages.InterpolateString: server name, Discord invite and shard name are plain strings. A null configuration value, which .NET's `Replace` treats as empty, is not modelled.
- Messages.InterpolateString: every occurrence of a placeholder between pieces without `%` is replaced (ReplaceEvery, InterpolateEveryServerName), but no lemma claims the result is free of placeholders. It is not in general, because text around a replaced occurrence can join with the value to spell the placeholder again.
- `GetPeriodicMessageInterval` returns a configuration value unchanged and is not modelled.
- The rest of LaciWizardModule.cs is Discord UI, the captcha and database code:
  - LaciWizardModule.UserInfo.cs and LaciWizardModule.Secondary.cs are not part of this model;
  - the menu picker's page handlers are represented only by the page they open.
- PeriodicMessageService.cs, ClientConfigurationController.cs and the configuration classes are not part of this model, apart from the defaults in `DefaultConfig` and `DefaultMessageOfTheDay`.
