# Verified models of adsys

adsys reads Group Policy from Active Directory and applies it on Linux. This project models its
self-contained algorithms and protocols in Dafny and proves what they promise, for every input, every
run or every reachable state.

| file | what it models |
|---|---|
| `Levenshtein.dfy` | the edit distance behind the command line's suggestions |
| `Arbiter.dfy` | the goroutine that keeps libsmbclient and child processes apart |
| `Basics.dfy`, `Entries.dfy`, `GoStrings.dfy` | options, the shared entry type, Go's string order and the few string functions needed |
| `Merge.dfy`, `MergeLaws.dfy` | merging an ordered list of GPOs into one entry per type and key |
| `Display.dfy` | listing the same GPOs with a mark on overridden rules, against what merging applies |
| `RegistryScan.dfy`, `RegistryPolicy.dfy` | the streaming reader of `Registry.pol` files, byte by byte |
| `RegistryRoundTrip.dfy` | an encoder for section 2.2.1 of [MS-GPREG], and exactly what survives a round trip |
| `RegistryDecode.dfy` | raw registry entries to policy entries, with containers and meta values |
| `ReleaseOverride.dfy` | decoded entries to the rules of a GPO, with per-release overrides |
| `DconfQuote.dfy` | splitting on separators that are not escaped, and quoting |
| `DynamicValues.dfy`, `ApplyPolicies.dfy` | `${VAR}` expansion, and the pipeline from GPOs to managers and cache |
| `Idler.dfy` | idling timeout and shutdown of the daemon |
| `Scripts.dfy` | the ready and session flags of user and machine scripts |
| `Watcher.dfy` | the watcher's loop, its grace period and the version bumps |

## How the models are built

Code that loops over buffers, tables, maps or slices is a method with the same loops, branches and error
cases, proved against a specification function or predicate whose own properties are lemmas. `Scanner` is a
class, as the program's scanner is an object with a moving buffer, and the merged rules of
`ApplyPolicies.dfy` are arrays, so that expanding them in place could touch the GPOs if they shared memory.

Goroutines and processes that meet at channels, a mutex or the file system are state machines. Their
fields are values and their operations steps, because another party may act between any two of them; the
theorems are about every finite interleaving. Where the program also has a loop that one party runs on its
own (the arbiter's selects, the watcher's select, the check of the scripts) that loop is a method as well.

Ambient data is a parameter: case folding and upper-casing, path cleaning, the join of domain and key, the
JSON reading of meta values. The theorems hold whatever these functions are, unless a row says otherwise.

## Where the code and its promise part

Each of these is a theorem about all inputs or runs that says exactly when the promise holds, mostly with an
input that shows how it can fail.

- *Round trip.* A setting is read back as written if and only if it is `WellFormed`
  (`RegistryRoundTrip.SurvivesIff`). End markers are matched at any byte offset, so even a size field can
  look like one: settings with 0x5D or 0x5D00 bytes of data never survive (`SizeThatLooksLikeAnEnd`).
- *Files that read as empty.* A file with a valid header and something behind it reads as empty, without an
  error, if and only if the first item that cannot be used has an end but is larger than the largest buffer,
  or has no end and at least the size of the smallest one (`RegistryPolicy.ReadsEmptyIff`). The second case
  is a file cut off in the middle of a large item, however well that would fit
  (`RegistryRoundTrip.CutOffFile`, `OversizedItemEmptiesFile`).
- *Merging.* The result is the one the GPOs mean if and only if running type and key together confuses no
  two pairs that have to be in it (`Merge.GetUniqueRules`, `ClashLoses`); the managed types are never
  confused (`MergeLaws.ManagedTypesAreUnambiguous`).
- *Merging in halves.* It equals merging the whole if and only if no key `Loses` the further half's appends
  behind an override of its own (`MergeLaws.MergeOfHalves`, `SomethingIsLost`); one strategy per key is sufficient.
- *Display.* For one object, the rules shown as not overridden are those that are applied if and only if the
  key's first rule is an override or all its rules are enabled appends (`Display.DisplayAgreesIff`). One
  strategy per key and no disabled appends is a special case. In a user's listing, which has the machine's
  rules in front, the same condition is on the user's own rules unless the machine overrides the key; then all
  of the user's have to be disabled appends (`UserDisplayAgreesIff`).
- *Joined keys.* The listing is the one that is meant if and only if no rule is hidden only by a rule of
  another domain or key that joins to the same path (`Display.DumpIsMeantIff`, `FalselyHidden`). Domains
  without a slash and clean keys are safe (`SlashFreeIsClear`, `ClearHidesNothingFalsely`).
- *Templates.* A bad template that filtering leaves refuses a policy whether it is in a rule that is to be
  handed out or in one of a type that no manager is given (`ApplyPolicies.Apply`). Filtering keeps those of Pro-only types
  from doing harm, but not, say, a "gdm" rule of a user (`ApplyPolicies.HarmFromElsewhere`).
- *Quoting.* The closing quote closes the string if and only if the content does not end in an odd run of
  backslashes (`DconfQuote.QuotedIsClosed`).
- *Releases.* Without entries in error, the loop is the block specification if and only if every value
  applied has the key type of its block (`ReleaseOverride.BlocksIff`). Otherwise the value goes to a rule
  of an earlier block, or the loop indexes an empty list (`MismatchPanics`).
- *Quit.* In any run, a quit that is being sent is bound to be lost if and only if it finds the loop waiting
  for the tick of a stopped timer, or about to (`Idler.QuitCannotArriveIff`). Once lost it is so for good, since
  later quits do nothing (`LostQuitIsForever`), and from the start a run gets there (`LostQuit`).
- *Timeout changes.* In any run, a timeout change gives the mutex back by nothing but a dropped send if and
  only if it finds the timer stopped, or about to be, or the loop on its way out (`Idler.ChangeHangsIff`);
  with paired calls, no dropped send and no expiry before, that is during a request (`CalmChangeHangsIff`). It
  leaves the loop waiting for the tick of a stopped timer (`DeadlockFromChange`), and no drop, expiry or quit
  ends that wait (`DeadlockIsForever`).
- *Sessions.* `RunScripts` looks at the ready flag and marks the session in two steps. Sessions have their
  scripts ready if and only if no session is marked after the ready flag has gone (`Scripts.SessionsReadyIff`).
  Only a policy applied in between brings that about (`UndisturbedMarksReady`), and it can (`UnreadySession`).
  A running session keeps its scripts, ready and complete, if and only if they are ready
  (`SessionKeepsScriptsIff`); its directory stays unchanged if and only if no policy is being applied but one
  bound to fail with nothing left to change (`SessionUnchangingIff`), and it can change (`ChangedDuringSession`).
- *Arbiter.* Counters, mode and holds agree if and only if no Done is received without a hold
  (`Arbiter.AgreementIff`). Clients that pair their calls can always go on if and only if none asks for one
  mode inside the other or keeps a hold for good (`Arbiter.ProgressIff`).
- *Watcher roots.* A change is recorded under the innermost configured directory above it if and only if
  every configured directory beside it whose name it starts with is shorter than one above it
  (`Watcher.RootIsInnermostIff`, `RootOfNeighbour`).
- *Watcher flushes.* Recorded roots are never forgotten (`Watcher.FlushIsExact`), so a flush bumps only what
  has changed since an earlier one if and only if all that changed before has changed again
  (`Watcher.FlushIsFreshIff`).

## Model

| member | source | states |
|---|---|---|
| Levenshtein.Ld | internal/cmdhandler/suggest.go:78-110 | the last cell of the table is the length of some edit script that turns one folded string into the other, and no script is shorter |
| Levenshtein.DistanceIsMinimal | internal/cmdhandler/suggest.go:93-109 | the recurrence with the greedy diagonal is the minimum over all insert, delete and substitute scripts |
| Levenshtein.NoShorterScript | internal/cmdhandler/suggest.go:93-109 | every script between two strings is at least as long as their distance |
| Levenshtein.ScriptReachesDistance | internal/cmdhandler/suggest.go:94-107 | a script of exactly that length exists and does turn one string into the other |
| Levenshtein.Neighbours | internal/cmdhandler/suggest.go:95-105 | neighbouring cells of the table differ by at most one |
| Levenshtein.Moves | internal/cmdhandler/suggest.go:95-97 | taking the diagonal on equal characters without looking at the other neighbours loses nothing |
| Levenshtein.Symmetric | internal/cmdhandler/suggest.go:93-109 | the distance is symmetric |
| Levenshtein.ZeroIffEqual | internal/cmdhandler/suggest.go:93-109 | it is zero exactly on equal strings |
| Levenshtein.Bounds | internal/cmdhandler/suggest.go:93-109 | it lies between the difference of the lengths and the longer length |
| Levenshtein.Triangle | internal/cmdhandler/suggest.go:93-109 | it satisfies the triangle inequality |
| Levenshtein.SuggestsByPrefixOrLd | internal/cmdhandler/suggest.go:67-75 | a candidate is suggested exactly when a script of at most the given length reaches it or it extends the typed name |
| Arbiter.MutualExclusion | internal/smbsafe/smbsafe.go:37-99 | over every run of any number of clients with nested holds that receives no Done without a hold: no Smb hold while there is an Exec hold, counters equal to the outstanding holds of their mode, SIGCHLD restored whenever an Exec is held |
| Arbiter.AgreementStep | internal/smbsafe/smbsafe.go:42-78 | a rendezvous, restoration or override keeps counter, mode and holds in agreement if and only if it is not a Done without a hold |
| Arbiter.AgreementIff | internal/smbsafe/smbsafe.go:37-99 | they agree throughout a run of any clients if and only if the run receives no Done without a hold |
| Arbiter.PairedClients | internal/smbsafe/smbsafe.go:81-99 | clients that pair their Wait and Done calls have only such runs |
| Arbiter.NoDeadlock | internal/smbsafe/smbsafe.go:42-99 | clients that pair their calls and do not mix modes always have an enabled step, in every reachable state with work left |
| Arbiter.ProgressIff | internal/smbsafe/smbsafe.go:42-99 | any clients pair their calls and can always go on if and only if each is disciplined: pairs its calls, never asks for one mode inside the other, and ends without a hold |
| Arbiter.UndisciplinedGetStuck | internal/smbsafe/smbsafe.go:42-99 | paired clients, one of them not disciplined, have a run to a state with work left and no step |
| Arbiter.StuckStep | internal/smbsafe/smbsafe.go:48-75 | a holder that waits for the other mode, or makes no more calls, stays so whatever the others do |
| Arbiter.UnpairedMayProgress | internal/smbsafe/smbsafe.go:48-59 | without pairing the law fails: one client may give back what another forgets |
| Arbiter.SomeStep | internal/smbsafe/smbsafe.go:44-75 | which step that is: the next call of a holder of the current mode, the restoration, or a request at the outer select |
| Arbiter.ReentrantSmb | internal/smbsafe/smbsafe.go:48-54 | a current Smb holder that waits for Smb again is let in at once and counted |
| Arbiter.UndisciplinedDeadlock | internal/smbsafe/smbsafe.go:48-61 | a client asking for Exec inside its Smb section reaches a state with no step left |
| Arbiter.Select | internal/smbsafe/smbsafe.go:44-70 | a select receives a call its mode lists, and the run goes on being one of disciplined clients |
| Arbiter.SmbMode | internal/smbsafe/smbsafe.go:45-60 | the Smb branch ends in the outer select with SIGCHLD restored, by steps of the state machine |
| Arbiter.ExecMode | internal/smbsafe/smbsafe.go:61-76 | the Exec branch ends in the outer select and leaves SIGCHLD alone |
| Arbiter.Arbitrate | internal/smbsafe/smbsafe.go:41-78 | against disciplined clients the loop makes every call, leaves no hold and restores SIGCHLD, by a run the lemmas speak of |
| Merge.GetUniqueRules | internal/policies/policies.go:446-507 | whatever order maps are walked in: per type and key the first override is final, appends are joined furthest first with the closest meta, disabled appends count for nothing, lists are strictly sorted; all that if and only if the `seen` key tells the pairs that have to be in the result apart |
| Merge.AddEntry | internal/policies/policies.go:459-491 | the innermost body folds one more occurrence into the running maps so that they hold the merge of what was handled, and whatever happens no two pairs in them share their key in `seen` |
| Merge.AddRules | internal/policies/policies.go:455-492 | one type's entries of one GPO are handled in their order |
| Merge.AddGPO | internal/policies/policies.go:454-493 | a whole GPO is handled, every type once, whatever the order |
| Merge.OrderAll | internal/policies/policies.go:497-504 | the last loop turns the running maps into the sorted lists the GPOs mean |
| Merge.MergedStep | internal/policies/policies.go:459-488 | how the closed-form merge of a key changes with one further occurrence, case by case as in the switch |
| Merge.UniqueRulesUnique | internal/policies/policies.go:446-507 | the specification leaves exactly one result, so map order cannot show |
| Merge.EffectiveContributes | internal/policies/policies.go:459-488 | a pair has to be in the result as soon as one of its rules is not a disabled append |
| Merge.OnlyOneMakesIt | internal/policies/policies.go:467-491 | of two such pairs with one `seen` key just one gets into the result |
| Merge.ClashLoses | internal/policies/policies.go:467-491 | types "a" and "ab" with keys "bc" and "c" are confused |
| MergeLaws.MergeIsCompositional | internal/policies/policies.go:446-507 | the result for A followed by B is that for one GPO holding the merge of A, then B, and `seen` confuses both inputs or none |
| MergeLaws.MergeIsIdempotent | internal/policies/policies.go:446-507 | merging a merged result changes nothing, and is as free of confusion |
| MergeLaws.MergeOfHalves | internal/policies/policies.go:446-507 | merging two halves and then the results equals merging the whole if and only if no key loses its further appends; `seen` confuses both inputs or none |
| MergeLaws.MergedPrefix | internal/policies/policies.go:459-488 | for one key, the closest occurrences may be replaced by their merge |
| MergeLaws.MergedHalves | internal/policies/policies.go:459-488 | for one key, both parts may be, exactly unless it loses |
| MergeLaws.SomethingIsLost | internal/policies/policies.go:459-488 | an append of the further half behind an override of that half is lost |
| MergeLaws.OneStrategyLosesNothing | internal/policies/policies.go:459-488 | a key that keeps one strategy loses nothing |
| MergeLaws.PrefixFreeIsUnambiguous | internal/policies/policies.go:467-491 | the concatenated `seen` key tells all pairs apart when no present type is a prefix of another |
| MergeLaws.ManagedTypesAreUnambiguous | internal/policies/manager.go:404-438 | which is so for the types the managers are given |
| Entries.BelowIs | internal/policies/policies.go:499 | the order of the sort is that of the bytes at the first difference, a string standing in front of those that go on behind it |
| MergeLaws.OverrideFirst | internal/policies/policies.go:482-487 | for any occurrences behind it, an override that comes first is the result as it stands |
| MergeLaws.DisabledAppend | internal/policies/policies.go:462-464 | a disabled append, wherever it stands, might as well not be there |
| MergeLaws.AppendFirst | internal/policies/policies.go:460-478 | behind an enabled append that comes first, a further one is put on a line in front, under the closest meta, and an override changes nothing |
| MergeLaws.ClosestOverrides | internal/policies/policies.go:453-487 | the first rule of the first GPO, if it overrides, has its way over all GPOs behind it |
| MergeLaws.TypesAre | internal/policies/policies.go:454-457 | the types of the result are those of all GPOs |
| Display.Format | internal/policies/gpo.go:22-69 | the exact lines of one GPO: its header, then its domains sorted, each with its rules in order, marked by earlier overrides with the same joined key; without rules only the header, and the shared set is dropped |
| Display.FormatDomain | internal/policies/gpo.go:39-66 | the exact lines of one domain: its line, then its rules, marked or left out exactly when an earlier override has the same joined key |
| Display.DumpPolicies | internal/policies/manager.go:446-477 | the exact listing: titles, the machine's GPOs unless left out, the object's GPOs, sharing what overrides; it fails exactly when policies asked for are not there |
| Display.DumpIsMeantIff | internal/policies/gpo.go:42-64 | the listing is the one in which rules are marked by overrides of their own domain and key, if and only if no rule is hidden by a rule of another domain or key alone |
| Display.ClearHidesNothingFalsely | internal/policies/gpo.go:42-43 | that is so when joined keys tell the rules present apart |
| Display.SlashFreeIsClear | internal/policies/gpo.go:42 | they do for domains without a slash joined to clean keys |
| Display.FalselyHidden | internal/policies/gpo.go:42-43 | domains "a" and "a/b" with keys "b/c" and "c" are confused |
| Display.ShownAreMarked | internal/policies/gpo.go:39-66 | domain by domain the listing that is meant shows all rules of all GPOs in order with their marks, or all but the marked ones |
| Display.DumpTops | internal/policies/manager.go:451-474 | with and without rules: the machine's title, its GPOs by name and id, the user's title and the user's GPOs stand in that order, or the object's GPOs alone |
| Display.TwoRules | internal/policies/gpo.go:22-66 | line by line, for a machine's and a user's rule of one key: the second is marked, or left out, unless the first is an append |
| Display.MarksAt | internal/policies/gpo.go:42-64 | the mark of the rule at a place depends on just the rules in front of it |
| Display.ListingKeyed | internal/policies/gpo.go:39-42 | what is listed for a key is what the merge is made from, in the same order |
| Display.ContributorsMakeTheMerge | internal/policies/policies.go:459-492 | merging only the contributing rules gives the same result, and they are what is in it |
| Display.DisplayAgreesIff | internal/policies/gpo.go:42-64 | the unmarked rules of a key are those that contribute if and only if its first rule is an override or all are enabled appends |
| Display.UserDisplayAgreesIff | internal/policies/manager.go:454-474 | the same for a user's rules behind the machine's: with no machine override of the key if and only if the user's own are so; with one if and only if all of them are disabled appends |
| Display.OverrideBehindAppend | internal/policies/gpo.go:60-64 | an override behind an append is shown as applied and is not |
| RegistryScan.ScanPolicyEntries | internal/ad/registry/registry.go:236-269 | the split function's two loops find the first `[` and the first end marker behind it, and fail as the program does |
| RegistryScan.TokenIsStable | internal/ad/registry/registry.go:251-257 | a token found in a window is that of every longer window |
| RegistryScan.SkippedIsGarbage | internal/ad/registry/registry.go:243-249 | dropping what a vain split lets go changes nothing but offsets |
| RegistryScan.AttemptTells | internal/ad/registry/registry.go:236-269 | every answer on the buffered window is the right one for all bytes that are left |
| RegistryScan.FullMeansTooLong | internal/ad/registry/registry.go:209-213 | a full buffer without an item means that the next item is too long |
| RegistryScan.Scanner.Scan | internal/ad/registry/registry.go:211-213 | however the bytes arrive, the scanner's next token or stop is that of one look at the whole rest |
| RegistryPolicy.ScanForPolicies | internal/ad/registry/registry.go:271-324 | streaming equals batch: the loop over the scanner yields the entries or the failure of one scan of all bytes |
| RegistryPolicy.LargerBuffer | internal/ad/registry/registry.go:209-229 | a larger buffer changes a result only if an item was too long |
| RegistryPolicy.HeaderIsSkipped | internal/ad/registry/registry.go:225-228 | rescanning from byte 0, header included, finds the same entries |
| RegistryPolicy.ReadPolicy | internal/ad/registry/registry.go:187-231 | header checks and the doubling retry in closed form: one scan with the largest buffer, a failure as too long reading as an empty file |
| RegistryPolicy.ReadsEmptyIff | internal/ad/registry/registry.go:210-267 | over all files: exactly which read as empty without an error |
| RegistryPolicy.TooLongIff | internal/ad/registry/registry.go:210-267 | a scan with the largest buffer fails as too long if and only if, behind usable items, there is one with an end but too large, or one of 64 KiB or more without an end |
| RegistryRoundTrip.RoundTrip | internal/ad/registry/registry.go:187-339 | every list of well-formed settings, encoded behind a header, is read back with paths, keys, types and data in order |
| RegistryRoundTrip.SurvivesIff | internal/ad/registry/registry.go:236-339 | over all settings with a describable length, one is read back as written if and only if it is well formed |
| RegistryRoundTrip.PoliciesOfEncoded | internal/ad/registry/registry.go:236-324 | the same for a list of settings in front of any other bytes |
| RegistryRoundTrip.OversizedItemEmptiesFile | internal/ad/registry/registry.go:210-230 | one item that no buffer holds loses all settings before and behind it, without an error |
| RegistryRoundTrip.CutOffFile | internal/ad/registry/registry.go:259-266 | a file cut off in an item fails if less than 64 KiB of the item are there; otherwise all settings in front are lost without an error |
| RegistryRoundTrip.SizeThatLooksLikeAnEnd | internal/ad/registry/registry.go:237-257 | data of 0x5D or 0x5D00 bytes is never read back |
| RegistryRoundTrip.PlainIsWellFormed | internal/ad/registry/registry.go:236-317 | plain names with ordinary NUL-terminated data and no byte 0x5D are well formed |
| RegistryRoundTrip.FieldsParse | internal/ad/registry/registry.go:274-316 | the five fields of a well-formed setting are split and decoded as they were written |
| RegistryRoundTrip.StringField | internal/ad/registry/registry.go:274-278 | a string field is cut at its own terminator exactly when it holds no delimiter at any byte offset |
| RegistryRoundTrip.DecodesOnlyFrom | internal/ad/registry/registry.go:326-339 | only two byte strings decode to a text: its encoding with and without a terminator |
| RegistryRoundTrip.FileInBytes | internal/ad/registry/registry.go:187-324 | from literal bytes to fields: what a file with one string setting reads as |
| RegistryRoundTrip.SettingInBytes | internal/ad/registry/registry.go:233-240 | the encoder puts each bracket, separator, name and number where the format has it |
| RegistryRoundTrip.NumbersInTheFile | internal/ad/registry/registry.go:47-50 | signature and version low byte first, and the smallest and largest buffer in bytes |
| RegistryRoundTrip.BadHeaders | internal/ad/registry/registry.go:195-206 | which files fail in front of the first item, and how |
| RegistryRoundTrip.BadItems | internal/ad/registry/registry.go:278-316 | for any five fields: which make the item fail and as what, in the order the program looks, and what it yields otherwise |
| RegistryDecode.DecodePolicy | internal/ad/registry/registry.go:59-172 | the running meta values and container flag give each child what the nearest entries before it say; it fails exactly when some entry does; containers emit nothing |
| RegistryDecode.NearestContainer | internal/ad/registry/registry.go:80-98 | the nearest preceding container, or that there is none |
| RegistryDecode.NearestSetter | internal/ad/registry/registry.go:88-118 | the nearest preceding entry that set the meta values, or that there is none |
| RegistryDecode.Convert | internal/ad/registry/registry.go:132-168 | value, disabled flag, meta and error of an emitted entry |
| RegistryDecode.DwordReadsBack | internal/ad/registry/registry.go:149-155 | a DWORD comes out as the numeral, without leading zeros, of the number its four bytes encode |
| RegistryDecode.StringReadsBack | internal/ad/registry/registry.go:137-144 | a terminated string comes out as it is, the empty one as the default |
| RegistryDecode.MultiStringReadsBack | internal/ad/registry/registry.go:137-148 | a list of NUL-terminated strings comes out with a newline behind each |
| RegistryDecode.AfreshAt | internal/ad/registry/registry.go:79-113 | behind a string container both running variables depend on nothing in front of it |
| RegistryDecode.StringContainerStartsAfresh | internal/ad/registry/registry.go:71-169 | so decoding, failures included, is piecewise between string containers |
| RegistryDecode.ChildTakesFromContainer | internal/ad/registry/registry.go:126-168 | a child behind a string container, with any children in between: key, value, disabled flag and error, and the meta and the strategy the container has for its name, each in its place, or nothing for a name it does not have |
| RegistryDecode.ChildString | internal/ad/registry/registry.go:136-144 | an enabled string child says what it was written with, or for the empty string the default of its name |
| RegistryDecode.SingleIsForAll | internal/ad/registry/registry.go:100-124 | a single string key becomes an entry for all releases, with the meta, strategy and default its own data has for that name |
| RegistryDecode.SilentOnes | internal/ad/registry/registry.go:80-107 | containers, and single keys that are no strings, emit nothing |
| RegistryDecode.OtherTypes | internal/ad/registry/registry.go:81-107 | what those of other types do to the running meta values and the flag |
| RegistryDecode.MarkedName | internal/ad/registry/registry.go:75-78 | a deletion mark disables and is taken off the name |
| RegistryDecode.SlashesTurn | internal/ad/registry/registry.go:132 | backslashes of a path become slashes and nothing else changes |
| RegistryDecode.NamesAre | internal/ad/registry/registry.go:25-45 | the names and type numbers the decoder knows |
| RegistryDecode.UnreadableData | internal/ad/registry/registry.go:137-158 | which data of an enabled entry cannot be read, and that other types have no value |
| ReleaseOverride.ParseGPO | internal/ad/ad.go:643-701 | the one-pass loop yields per type its `all` entries in order, each with the last value written to it; exactly when it fails, and exactly when it indexes an empty list |
| ReleaseOverride.BlocksIff | internal/ad/ad.go:671-698 | without entries in error: nothing panics and each rule has last been written to by the last entry for this release of its own block that is behind an enabled flag, if and only if every value applied has the key type of its block |
| ReleaseOverride.MistargetedIsEarlier | internal/ad/ad.go:693-698 | a value of another type goes to a rule that an earlier block opened, if to any |
| ReleaseOverride.OpenerIsLast | internal/ad/ad.go:671-698 | with matching type the rule written to is the one that opened the block |
| ReleaseOverride.InBlockStep | internal/ad/ad.go:671-687 | the two local variables are those of the block the loop is in |
| ReleaseOverride.NewRule | internal/ad/ad.go:671-676 | an `all` entry adds a rule that nothing has been written to |
| ReleaseOverride.Replaced | internal/ad/ad.go:693-698 | a matching entry changes the last rule of its type and no other |
| ReleaseOverride.MismatchPanics | internal/ad/ad.go:664-696 | for any two types, three entries with keys as the policy templates give them make the loop index an empty list |
| ReleaseOverride.LookAt | internal/ad/ad.go:664-669 | such a key is taken apart into the type, path and release it was made of |
| ReleaseOverride.SupportedIff | internal/ad/ad.go:649-660 | exactly which keys are looked at: those under the prefix and the two families of certificate keys |
| ReleaseOverride.UnsupportedIsSkipped | internal/ad/ad.go:657-660 | any other entry, wherever it is put and whatever its error, changes neither the rules nor where the loop fails or panics |
| ReleaseOverride.CertificateKeys | internal/ad/ad.go:649-655 | the certificate keys become rules of type "certificate" for all releases, under which path |
| ReleaseOverride.OverrideTakesEffect | internal/ad/ad.go:671-698 | from keys as the templates give them to the rule: the value for this release if the flag is on, else that of the `all` entry |
| ReleaseOverride.AppliedIff | internal/ad/ad.go:678-691 | exactly which values are applied, in terms of the entries in front of them alone |
| DconfQuote.SplitOnNonEscaped | internal/policies/dconf/dconf.go:396-413 | the tokens joined give back the input and are cut exactly at separators behind an even run of backslashes |
| DconfQuote.SplitUnique | internal/policies/dconf/dconf.go:396-413 | that leaves only one split |
| DconfQuote.TokensAreTheSplit | internal/policies/dconf/dconf.go:396-413 | a character-by-character definition of it is the same split |
| DconfQuote.QuoteIsIdempotent | internal/policies/dconf/dconf.go:303-314 | quoting a quoted value changes nothing, on every string |
| DconfQuote.QuotedIsClosed | internal/policies/dconf/dconf.go:303-314 | every interior quote is escaped; the last one closes the string if and only if the content does not end in an odd run of backslashes |
| DconfQuote.TrailingBackslashIsNotClosed | internal/policies/dconf/dconf.go:313 | a lone backslash is quoted into a string that is not closed |
| DconfQuote.EscapedRun | internal/policies/dconf/dconf.go:313 | escaping leaves no quote that would cut, and keeps the run of backslashes at the end |
| DconfQuote.EscapingKeepsMeaning | internal/policies/dconf/dconf.go:313 | what the text says once escapes are resolved is the same before and after |
| DconfQuote.QuotedSaysTheText | internal/policies/dconf/dconf.go:303-314 | a text without backslashes, with spaces or one pair of quotes around it or without, is quoted into what says just that text |
| DconfQuote.InnerIs | internal/policies/dconf/dconf.go:312 | spaces and one pair of quotes around a text go, and nothing of the text does |
| DconfQuote.LoneQuote | internal/policies/dconf/dconf.go:305-313 | a quote alone, escaped or not, is quoted into itself |
| GoStrings.TrimSpaceIs | internal/policies/dconf/dconf.go:312 | trimming takes the spaces at both ends of a text and leaves the text |
| DynamicValues.Expand | internal/policies/dynamicvalues/dynamicvalues.go:59-110 | the one-pass loop resolves each segment of the value's parse once and puts the results together, first error first |
| DynamicValues.ParseRenders | internal/policies/dynamicvalues/dynamicvalues.go:76-107 | the parse says the value |
| DynamicValues.ParseIsCanonical | internal/policies/dynamicvalues/dynamicvalues.go:76-107 | no plain `${` is left in it, and names end at the first brace |
| DynamicValues.ParseIsUnique | internal/policies/dynamicvalues/dynamicvalues.go:76-107 | it is the only such parse |
| DynamicValues.SucceedsIff | internal/policies/dynamicvalues/dynamicvalues.go:84-103 | expansion succeeds exactly when no placeholder is open, empty, unknown or user-only on a machine; else the error is that of the first bad one |
| DynamicValues.ExpandConcat | internal/policies/dynamicvalues/dynamicvalues.go:76-109 | segments expand independently: substituted text is not looked at again |
| DynamicValues.CutIff | internal/policies/dynamicvalues/dynamicvalues.go:59-110 | a value can be parsed in two parts if and only if no placeholder straddles the cut, and then expands in two parts |
| DynamicValues.NoMarkerUnchanged | internal/policies/dynamicvalues/dynamicvalues.go:60-63 | the fast path gives what the loop would |
| DynamicValues.ContainsMarker | internal/policies/dynamicvalues/dynamicvalues.go:61 | the search for a marker |
| DynamicValues.VariablesMean | internal/policies/dynamicvalues/dynamicvalues.go:65-103 | each of the five names, in any case, gives its own field of the context, the two of users are refused on a machine, and every other name is unknown |
| DynamicValues.Malformed | internal/policies/dynamicvalues/dynamicvalues.go:86-94 | an empty placeholder and one without its end are refused as such |
| ApplyPolicies.Apply | internal/policies/manager.go:365-442 | managers are given the merge, filtered, each enabled entry expanded once; what refuses is an invalid user name, a bad template in a rule to be handed out, or one in a rule of a type no manager is given, which failure it is is told, and nothing is handed out then; the GPOs saved are as they came |
| ApplyPolicies.HarmFromElsewhere | internal/policies/manager.go:384-402 | an open placeholder in a user's "gdm" rule, which no manager is given, refuses all, with a subscription and without |
| ApplyPolicies.RulesToApply | internal/policies/manager.go:377-391 | merge and filter, in memory that is no GPO's |
| ApplyPolicies.UniqueRules | internal/policies/policies.go:496-504 | the merged lists are fresh, apart from each other, and the GPOs are unchanged |
| ApplyPolicies.FilterRules | internal/policies/manager.go:530-549 | exactly the Pro-only types are emptied, nothing else is touched, and they are reported in the order of the Pro-only types |
| ApplyPolicies.ExpandDynamicValues | internal/policies/manager.go:593-608 | in place, every enabled entry is expanded once; it fails exactly when some entry cannot be, with the error of one that cannot |
| ApplyPolicies.ExpandList | internal/policies/manager.go:595-604 | the same for one list, with the error of its first such entry |
| ApplyPolicies.UserContext | internal/policies/manager.go:559-587 | a user's name is split at its last "@" and refused without one; the full hostname has the machine's domain unless the hostname is qualified; a machine has no user |
| ApplyPolicies.UserPlaceholder | internal/policies/manager.go:559-604 | from name and hosts to the entry: what each placeholder of a user's entry becomes, a disabled entry staying as it is |
| ApplyPolicies.MachinePlaceholder | internal/policies/manager.go:573-604 | the same for a machine's entry |
| ApplyPolicies.LeftWithoutSubscription | internal/policies/manager.go:404-438 | of the types handed out, only "dconf" and "gdm" keep their rules without a subscription, and all do with one |
| ApplyPolicies.ReportedInOrder | internal/policies/manager.go:544-548 | the order in which filtered types are reported |
| Idler.NeverPanics | internal/daemon/idler.go:46-116 | over all interleavings nothing sends on or re-closes the closed channel, keepAlive stops the server at most once and the listener channel is closed at most once |
| Idler.SafeStep | internal/daemon/idler.go:46-116 | every step of hooks, Quit, timer and loop keeps the invariant behind that |
| Idler.TimerArmedIffIdle | internal/daemon/idler.go:46-109 | in runs with paired calls, no dropped send and no expiry, whatever timeout changes there are, the timer is armed exactly when no request is open, whenever the mutex is free and the loop is in its select |
| Idler.CalmIsNeeded | internal/daemon/idler.go:50-116 | an expiry, a dropped send and a Done without its New each break that |
| Idler.TimerStep | internal/daemon/idler.go:46-109 | every such step keeps timer, pending operations and request count together, but for a timeout change during a request, which starts a hang |
| Idler.ChangeHangsIff | internal/daemon/idler.go:101-109 | after any run, a timeout change never gives the mutex back without a dropped send if and only if it finds the timer stopped or about to be, or the loop on its way out |
| Idler.CalmChangeHangsIff | internal/daemon/idler.go:101-109 | in runs with paired calls, no dropped send and no expiry: if and only if it comes during a request or finds the loop on its way out |
| Idler.DeadlockIsForever | internal/daemon/idler.go:57-60 | nothing ends the wait for a tick of a stopped timer: over all runs, with drops, expiries and quits, the server is never stopped |
| Idler.DeadlockFromChange | internal/daemon/idler.go:57-60 | a timeout change that finds the timer stopped leads to it as soon as its stop is received |
| Idler.DeadlockNeedsChange | internal/daemon/idler.go:46-109 | in calm runs nothing else leads to it |
| Idler.ChangeDuringRequest | internal/daemon/idler.go:57-60 | a run from the start to the wait for a tick of a stopped timer |
| Idler.LostQuitIsForever | internal/daemon/daemon.go:199-209 | once Quit is over without having been received, no run stops the server or closes the channel |
| Idler.QuitCannotArriveIff | internal/daemon/daemon.go:199-209 | after any run, a quit being sent is never received, however long it waits, if and only if it finds the loop waiting for the tick of a stopped timer, or about to |
| Idler.LostQuit | internal/daemon/daemon.go:199-209 | a run from the start that loses the quit |
| Idler.StopsAsFirstQuit | internal/daemon/daemon.go:199-222 | over every run: the server is stopped by force if and only if the first quit of the run is, a call with force or the expiry of the timeout |
| Scripts.ReadyMeansComplete | internal/policies/scripts/scripts.go:118-208 | over every run, whoever acts when, and every point of failure: ready means complete order files and no others, with all scripts there and executable, and no policy being applied |
| Scripts.InvStep | internal/policies/scripts/scripts.go:118-258 | every step on the directory keeps that |
| Scripts.OrderSteps | internal/policies/scripts/scripts.go:181-203 | while order files are written line by line, those closed are complete |
| Scripts.SessionsReadyIff | internal/policies/scripts/scripts.go:232-240 | throughout a run a session flag means a ready flag if and only if no session is marked after its ready flag has gone |
| Scripts.MarkStep | internal/policies/scripts/scripts.go:122-240 | the one step that can break it, from any reachable state |
| Scripts.UndisturbedMarksReady | internal/policies/scripts/scripts.go:232-240 | it holds in every run in which no policy starts between a ready check and the mark behind it |
| Scripts.DisturbedStart | internal/policies/scripts/scripts.go:232-240 | a policy applied in between leaves a session that is not ready |
| Scripts.UnreadySession | internal/policies/scripts/scripts.go:118-240 | such a session can be reached from the start |
| Scripts.SessionKeepsScriptsIff | internal/policies/scripts/scripts.go:122-125 | after any run, a running session keeps its scripts as they are, ready and complete, to its end, whatever policies are applied, if and only if they are ready |
| Scripts.SessionUnchangingIff | internal/policies/scripts/scripts.go:118-208 | its directory stays unchanged to its end if and only if no policy is being applied, or one whose check of the scripts is bound to fail with nothing left to make executable |
| Scripts.ChangedDuringSession | internal/policies/scripts/scripts.go:118-240 | from the start, a run in which a policy changes the directory of a session |
| Scripts.CheckScripts | internal/policies/scripts/scripts.go:150-179 | it fails exactly when a listed script is missing, a directory, or below a file, where a nil file info is used, and says which for the first such; else all are executable and the contents are the listed scripts per life cycle point, in order; what is not listed stays as it was |
| Scripts.CheckLines | internal/policies/scripts/scripts.go:154-178 | the same for the lines of one value |
| Scripts.ToldIsDetermined | internal/policies/scripts/scripts.go:163-170 | what is said of the first such script leaves no choice |
| Scripts.SessionGoesOn | internal/policies/scripts/scripts.go:243-257 | a session goes on through every run in which no shutdown scripts of the machine, or no logoff scripts of the user, are run |
| Scripts.SessionEnds | internal/policies/scripts/scripts.go:243-257 | and is over once those have been |
| Scripts.PolicyStarts | internal/policies/scripts/scripts.go:122-133 | during a session a policy changes nothing; otherwise the directory goes, and without entries that is all |
| Scripts.OneEntryLists | internal/policies/scripts/scripts.go:152-158 | an entry lists, for the last element of its key, what the lines of its value name |
| Scripts.OneLine | internal/policies/scripts/scripts.go:155-158 | a line names what is left without the spaces around it, a blank one nothing |
| Scripts.PathsAre | internal/policies/scripts/scripts.go:176-177 | an order file has the scripts of its point of the life cycle, below "scripts", in order, and no others |
| Watcher.Watch | internal/watcher/watcher.go:206-308 | the select loop is the state machine; cancelled, it leaves no recorded change unsettled; every version file ends at its first version plus the number of attempts in the log |
| Watcher.NoLostChange | internal/watcher/watcher.go:273-306 | in every run, after cancellation or with the timer idle, each recorded change has an attempt to bump its root behind it |
| Watcher.InvStep | internal/watcher/watcher.go:214-307 | every turn of the loop keeps the invariant behind that |
| Watcher.FlushIsExact | internal/watcher/watcher.go:295-304 | a flush attempts each root recorded so far exactly once; no other turn attempts any |
| Watcher.FlushIsFreshIff | internal/watcher/watcher.go:211-297 | a flush bumps only roots changed since an earlier point if and only if all that changed before has changed again |
| Watcher.RecordedExactly | internal/watcher/watcher.go:216-275 | what is recorded are the roots of the relevant events up to the cancellation, in order |
| Watcher.GetRootDir | internal/watcher/watcher.go:329-350 | the running maximum returns a configured root that is a prefix of the path and none longer is |
| Watcher.RootIsLongest | internal/watcher/watcher.go:329-350 | and nothing exactly when only the empty string matches |
| Watcher.RootIgnoresOrder | internal/watcher/watcher.go:333-344 | the order and repetition of the configured directories do not matter |
| Watcher.RootIsInnermostIff | internal/watcher/watcher.go:329-350 | below some configured directory: the root found is the innermost one above the path if and only if every configured directory that only starts its name is shorter than one above it |
| Watcher.RootOfNeighbour | internal/watcher/watcher.go:333-343 | with "/srv" and "/srv/sysvol" configured, a change below "/srv/sysvol-old" is recorded under "/srv/sysvol" |
| Watcher.UpdateVersions | internal/watcher/watcher.go:353-397 | each recorded root's version is bumped once, the others are left alone, and a failure does not stop the rest |
| Watcher.AttemptsOfFlush | internal/watcher/watcher.go:353-360 | a flush adds one attempt to each recorded root and to no other |
| Watcher.GraceIsGiven | internal/watcher/watcher.go:279-287 | every change starts the grace period anew: nothing is bumped until the timer runs out behind the last one |
| Watcher.GraceEnds | internal/watcher/watcher.go:286-297 | once it has, its tick bumps what is recorded, and no change is left unsettled |
| Watcher.TimesCounts | internal/watcher/watcher.go:363-397 | n bumps add n to a version, make n of a file that cannot be loaded, and leave a malformed one alone |
| Watcher.AttemptsCount | internal/watcher/watcher.go:353-360 | the attempts on a root are the places of the log that bump it |
| Watcher.VersionsCount | internal/watcher/watcher.go:385-387 | a version has gone up by the number of attempts on its root |
| Watcher.WhatCounts | internal/watcher/watcher.go:216-263 | writes, creations and removals of files but our own are recorded, mere renames, modes and what is gone already are not |

## Left out

- gRPC, D-Bus, systemd, polkit, PAM, Kerberos, winbind and libsmbclient: foreign calls without visible semantics.
- The commands, the terminal interface, documentation, ADMX templates and end-to-end utilities: user interface and text.
- Real files, memory mapping, archives, YAML, JSON and INI syntax: files are bytes, maps or flags, and `getMetaValues` is a parameter.
- Surrogate pairs and case mapping: texts are code units or bytes, lower and upper case are parameters, and so are path cleaning and joining.
- `quoteASVariant`, `checkSignature` and the polkit rules rest on regular expressions and D-Bus types; `writeProfile` is file rewriting.
- The AppArmor, mount, proxy, certificate and GDM managers: control of external processes and units.
- Display.DumpPolicies: lines are records instead of text with trimmed values.
- RegistryScan.Scanner.Scan: reads bring at least one byte and do not fail; read and seek errors, and a reader that returns bytes together with the end, are not modelled.
- RegistryRoundTrip.SurvivesIff: is for data whose length a DWORD can hold, as the format has it; the reader never looks at the size.
- RegistryDecode.DecodePolicy: raw entries are values; error texts are not kept, only that there is one.
- ReleaseOverride.ParseGPO: `filepath.Base` and `filepath.Dir` are those of clean relative paths.
- DconfQuote.SplitOnNonEscaped: a separator is one character, as in all its uses.
- ApplyPolicies.Apply: managers are modelled as what they are given, not as what they do with it in parallel; their errors and the failure to save are left out, as is the lock per object.
- ApplyPolicies.FilterRules: an emptied list is an empty array; what sorting by the place in a list does is given by its result.
- Arbiter.NoDeadlock: progress of some client, not of each; one mode may starve the other by design of the selects.
- Arbiter, Idler and Scripts keep their state as values and their operations as steps, not as fields of a class, because other goroutines or processes act between the steps.
- Idler.NeverPanics: safety only; whether an idle daemon ends in time is not claimed, since a stop of a timer whose expiry was consumed waits for ever (Idler.DeadlockIsForever). The length of the timeout, the wait of one second and the loop that listens on replaced sockets are not part of the model.
- Idler.TimerArmedIffIdle: is about runs with paired calls, no dropped send and no expiry; Idler.CalmIsNeeded shows a run of each other kind in which it fails.
- Scripts.ReadyMeansComplete: the look at the session flag and the removal of the directory are one step, and removals are whole. A life cycle point named like a flag, ".ready" or ".running", whose order file would be that flag, is not part of the model; neither are ownership, script paths that clean to other paths and the start of the machine unit.
- Scripts.CheckScripts: the directory is a map from names to files, with their executable bit, and folders; of the ways to fail to look at a file, being absent and being below a file are modelled.
- Watcher.Watch: adding and removing watches and failures to write a version file are left out. Timers are those of Go 1.23 and later, which go.mod selects: one that has run out still counts as running until its tick is received.
- Watcher.RootIsInnermostIff: a directory is above a path when it is a prefix of it that ends at a slash; the relative directory ".", which is no prefix of anything cleaned, is above nothing here.
