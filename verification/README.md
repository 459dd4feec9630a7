# Omdrop, verified

A Dafny model of the parts of Omdrop (AirDrop for Linux) whose comments promise
something across functions, processes or failures, and proofs of those promises.
`dafny verify dfyconfig.toml` checks all of it.

**The identity lifecycle.** `omdrop on`, `off`, `lock`, `unlock`, `import`, `use`
and `1password-off` share two counters, a window file, the settings, three Apple
key files, a 1Password item and one kernel-keyring key with a timeout. `Lifecycle`
holds the region each command runs under the lock, `Commands` the same regions as
they change the fields, and `Protocol` their interleaving: a locked region is one
atomic step in which time may pass, every 1Password call is a step of its own
outside the lock, a process may be stopped or crash between any two steps, and each
call whose failure does not just end its command has that failure as a parameter of
the step. `WindowSafety`,
`ItemSafety`, `RunOrder` and `ImportSafety` prove what holds in every state of every
run, `CacheOrigin` what can follow an adoption cut short, and `Witnesses` has runs
that show where the promises end. Below that, `Keyring` has the raw keyring operations and `SelfSigned` the links
and unlinks that make the self-signed pair. `Selection`, `CachePayload`,
`SettingsText` and `StateFiles` are the contract's choices and file formats, and
`WindowChoice` which identity a window is opened for and keeps.

**Loop algorithms against a simple meaning.** `Glob` (star patterns), `Versions`,
`VersionOrder` and `VersionMeaning` (pacman's version order), `Checksum` (the Internet
checksum), `DnsNames` and `NameMeaning` (names with compression pointers), `Frames` and
`PacketFields` (packets in Ethernet and SNAP frames).

**The receiver's bounded streams.** `Chunked` says what the chunked coding means on
a whole byte stream and `ChunkSizes` which sizes it takes; `BodyReader` reads it from a socket in pieces, with silences
and completeness checks; `Limits` keeps byte ceilings and a floor of free space;
`FreeNames`, `Extraction` and `StoredFiles` store an archive all or nothing; `Upload`
is one upload from its first byte to its answer.

## Where the code does less than it says

Each of these is modelled as the code is, with a run or an input that shows it and
the exact condition under which the promise holds.

- `window` reads the cache and extends its timeout later; if the key dies in
  between, the window opens and its cache is gone
  (`Witnesses.SlowOpeningLosesTheCache`). A run presents every window's own identity
  throughout if and only if all its openings are in time
  (`WindowSafety.PresentsAlways`).
- The key's timeout is computed before the call that sets it, so its deadline may
  pass the hard expiry by as long as that call takes, and no longer
  (`Witnesses.SlowPublication`, `Witnesses.KeyLifetimeExactly`).
- `off` ignores a `stop-begin` that could not write; an `on` under way then opens its
  window all the same (`Witnesses.UnwrittenStopIsMissed`). It is stale if and only if
  a stop was written (`RunOrder.OpensExactly`).
- `revoke` reports success although both of its keyring calls failed, and the key
  can still be found (`Keyring.RevokeExactly`). So does `set_timeout` when it is to
  clear the key, and a stop may leave the key past its period
  (`Witnesses.ClearedKeyLivesOn`), exactly then (`WindowSafety.StopEndShortens`).
- `adopt` writes the item ids before the mode and the generation; if a later write
  fails, an older fetch still publishes the old item's identity
  (`Witnesses.HalfAdoptionPublishesTheOldItem`). As long as 1Password delivers what
  it is asked for, this can follow an adoption if and only if the adoption is not
  safe (`CacheOrigin.AdoptionTurnsForeignExactly`).
- `create_with` looks whether the key is its own and then removes it by name; a file
  put there in between is removed (`SelfSigned.RemovesAnothersKey`), exactly then
  (`SelfSigned.Keys.CreateWith`).
- `begin` creates the self-signed pair before it looks for a legacy pair to move, so
  that a legacy pair stays where it is (`SelfSigned.LegacyPairStays`); it is moved if
  and only if someone takes the new pair away at that moment
  (`SelfSigned.Keys.BeginPair`).
- `rpmvercmp` goes round in circles on versions that end in a separator
  (`VersionOrder.TrailingSeparatorCircle`), and on no others
  (`VersionOrder.OrderedExactly`, `VersionOrder.CleanEvrExactly`). A version without
  a release equals it with any release (`VersionOrder.MissingReleaseEqualsAll`), so
  mixing the two breaks the order, exactly where `VersionOrder.VercmpExactly` says.
- A settings value that holds a line end is not read back:
  `SettingsText.SettingSetExactly`.
- A single write larger than the check interval can take the disk below its floor:
  `Limits.FloorExactly`.
- SNAP frames longer than 1500 bytes are built but not read: `Frames.SnapRoundTrip`.

## Model

| member | source | states |
|---|---|---|
| `WindowSafety.WindowIdentity` | core/crates/omdrop-identity/src/lifecycle.rs:386-599 | in every run whose openings so far were in time, with a 1Password window open, selection presents exactly the payload the window was opened on before its hard expiry, and only an error from then on |
| `WindowSafety.PresentsAlways` | core/crates/omdrop-identity/src/contract.rs:362-423 | in every run, with a 1Password window open selection presents the payload it was opened on before its hard expiry, and only an error from then on, in all states if and only if every opening was in time |
| `WindowSafety.CoveredAlways` | core/crates/omdrop-identity/src/lifecycle.rs:386-599 | in every run, the open window's identity is cached until it expires in all states if and only if every opening was in time |
| `WindowSafety.CoveredStep` | core/crates/omdrop-identity/src/lifecycle.rs:386-399 | every step of every command keeps that invariant, except an opening, which keeps it exactly when it is in time |
| `WindowSafety.OpeningCovers` | core/crates/omdrop-identity/src/lifecycle.rs:482-502 | an opening leaves its window covered if and only if the key it opens on outlasts the opening, or the identity expires during it |
| `WindowSafety.OpeningPresents` | core/crates/omdrop-identity/src/lifecycle.rs:482-502 | and in exactly that case selection then presents the right identity |
| `Witnesses.SlowOpeningLosesTheCache` | core/crates/omdrop-identity/src/lifecycle.rs:482-502 | a run from rest that ends with a live window and no cache |
| `WindowSafety.KeyLifetime` | core/crates/omdrop-identity/src/lifecycle.rs:358-399 | in every reachable state the key's deadline passes its payload's hard expiry by at most the slowest timeout call, and the fetch by at most a day more |
| `Witnesses.KeyLifetimeExactly` | core/crates/omdrop-identity/src/lifecycle.rs:386-399 | the key dies within m of its hard expiry in every run from rest with timeout calls of at most s seconds if and only if m >= s |
| `Witnesses.SlowPublication` | core/crates/omdrop-identity/src/lifecycle.rs:386-399 | for every delay, a run from rest whose key outlives its hard expiry by just that |
| `WindowSafety.BoundedStep` | core/crates/omdrop-identity/src/lifecycle.rs:358-399 | every step keeps that bound and the well-formedness of every payload held |
| `WindowSafety.OpensInsidePeriod` | core/crates/omdrop-identity/src/lifecycle.rs:263-270 | a new 1Password window opens only before the fetch period's end, with the live cache's fetch id and hard expiry |
| `WindowChoice.OpeningFixes` | core/crates/omdrop-identity/src/lifecycle.rs:482-551 | a new window is for the cached identity exactly in 1Password mode with a usable cache, for the one on disk exactly in disk mode with a good one, and otherwise for the self-signed pair |
| `WindowChoice.WindowKeepsItsChoice` | core/crates/omdrop-identity/src/lifecycle.rs:469-551 | in every run, whatever was changed since, an open window is the one some opening fixed from the mode and identities it found, and selection presents that kind of identity or an error |
| `WindowChoice.PresentsItsKind` | core/crates/omdrop-identity/src/contract.rs:362-423 | under each kind of window, exactly when its identity is presented and that no other is |
| `WindowChoice.OpensExactlyWhen` | core/crates/omdrop-identity/src/lifecycle.rs:469-551 | an opening whose timeout call works succeeds exactly when its number is current, no window is open and the file is written |
| `WindowSafety.StopEndShortens` | core/crates/omdrop-identity/src/lifecycle.rs:558-569 | after a stop whose calls report no error there is no window, and the key is gone, dies by the period's end or is past its hard expiry, if and only if clearing it was not in vain |
| `Witnesses.ClearedKeyLivesOn` | core/crates/omdrop-identity/src/lifecycle.rs:558-569 | a run from rest whose stop reports the key cleared while it lives on past its period |
| `ItemSafety.CacheFromConfiguredItem` | core/crates/omdrop-identity/src/lifecycle.rs:386-417 | in every run whose adoptions so far were safe, the payload of the live key comes from the item the settings name at that moment |
| `ItemSafety.SoundAlways` | core/crates/omdrop-identity/src/lifecycle.rs:809-865 | in every run, the invariant that keeps it so holds in all states if and only if every adoption is safe |
| `CacheOrigin.AdoptionTurnsForeignExactly` | core/crates/omdrop-identity/src/lifecycle.rs:845-865 | with 1Password delivering what it is asked for, some run without another adoption goes on from an adoption to cache another item's payload if and only if that adoption was not safe |
| `ItemSafety.SoundStep` | core/crates/omdrop-identity/src/lifecycle.rs:809-865 | every step but an adoption keeps: 1Password mode has item ids, the live cache is the named item's, and a fetch that can still be published is of the named item; an adoption does exactly when the old key is gone or its own item's, and it wrote the generation, or no fetch or import under way can bring in another item |
| `ItemSafety.AdoptExactly` | core/crates/omdrop-identity/src/lifecycle.rs:845-865 | an adoption leaves only its own item's identity in reach if and only if it wrote nothing, or the old key is gone or its own and the generation was written or no foreign fetch is out |
| `Witnesses.HalfAdoptionPublishesTheOldItem` | core/crates/omdrop-identity/src/lifecycle.rs:845-865 | a run from rest in which a failed settings write lets the old item's identity be cached |
| `RunOrder.PublishedOnlyIfUndisturbed` | core/crates/omdrop-identity/src/lifecycle.rs:386-417 | in every run a payload is published only if no lock, use, 1password-off or adoption took effect since its fetch read the generation |
| `RunOrder.OnOnlyIfNotStopped` | core/crates/omdrop-cli/src/window.rs:179-198 | in every run an `on` writes its window or starts receiver or radio only if no `stop-begin` wrote its move since the `begin` that printed its number |
| `RunOrder.OpensExactly` | core/crates/omdrop-identity/src/lifecycle.rs:469-472 | in every run `window` goes past its check if and only if no `stop-begin` wrote its move since that `begin` |
| `RunOrder.NotStaleExactly` | core/crates/omdrop-identity/src/lifecycle.rs:553-556 | at every point of an `on`, its number is current if and only if no `stop-begin` wrote its move since |
| `Witnesses.UnwrittenStopIsMissed` | core/crates/omdrop-cli/src/window.rs:625-640 | a run from rest in which a whole `off`, unable to write the sequence number, does not keep the `on` from opening |
| `RunOrder.StaleOnTouchesNothing` | core/crates/omdrop-identity/src/lifecycle.rs:469-481 | a stale `window` leaves the whole state as it was |
| `RunOrder.CountersStep` | core/crates/omdrop-identity/src/lifecycle.rs:553-599 | the generation moves by one exactly at a step that cancels, the sequence number exactly at a stop |
| `RunOrder.HoldersAlways` | core/crates/omdrop-cli/src/window.rs:625-640 | in every reachable state `on` and `off` hold the lock through their locked part, and an `on` past its window check is not stale |
| `ImportSafety.ImportLosesNothing` | core/crates/omdrop-identity/src/lifecycle.rs:875-1053 | at every point of every run, with crashes and concurrent imports, each Apple file is on disk or in some item, byte for byte |
| `ImportSafety.NoSecondItem` | core/crates/omdrop-identity/src/lifecycle.rs:823-843 | once the settings name an item, no import started later creates another |
| `ImportSafety.KeyGoesFirst` | core/crates/omdrop-identity/src/lifecycle.rs:1041-1047 | the first deletion is the private key's and nothing else |
| `ImportSafety.MadeItemAgrees` | core/crates/omdrop-identity/src/lifecycle.rs:875-1053 | in every run, an item that an import made is whole and agrees with what is left on disk in every later state |
| `ImportSafety.RerunFinishes` | core/crates/omdrop-identity/src/lifecycle.rs:875-1053 | in every run, a rerun started where the settings name such an item and left alone since is on its way, and after ten steps of its own finished: 1Password mode, no disk copies |
| `ImportSafety.RerunAfterImport` | core/crates/omdrop-identity/src/lifecycle.rs:875-1053 | hence so is every rerun once an import saved the ids of the item it made, and with the lock free its next step can always be taken |
| `ImportSafety.RerunCanFinish` | core/crates/omdrop-identity/src/lifecycle.rs:875-1053 | from every such point there is a run that finishes |
| `FreshStart.InvariantsHoldAtRest` | core/crates/omdrop-identity/src/lifecycle.rs:431-467 | the invariants of all runs hold where no command is under way, no window is open and nothing is cached |
| `Commands.Env.PublishIfCurrent` | core/crates/omdrop-identity/src/lifecycle.rs:386-399 | publishes exactly when current, under no 1Password window, inside the period and with the keyring working, until the end of the period; otherwise changes no key; keeps the window covered |
| `Commands.Env.CmdWindow` | core/crates/omdrop-identity/src/lifecycle.rs:469-551 | fixes the identity the mode calls for; changes nothing when stale or when a window is open, never the settings or counters; leaves a new window covered exactly when it opens in time |
| `Commands.Env.CmdStopEnd` | core/crates/omdrop-identity/src/lifecycle.rs:558-569 | the window goes, the key falls back to its period unless clearing it was in vain, as the protocol's step says |
| `Commands.Env.CmdLock` | core/crates/omdrop-identity/src/lifecycle.rs:573-599 | changes nothing under a window; otherwise cancels every fetch still out, and success leaves no key unless clearing it was in vain |
| `Commands.Env.CmdOnePasswordOff` | core/crates/omdrop-identity/src/lifecycle.rs:1115-1132 | changes nothing under a window; otherwise cancels every fetch still out, keeps the item, and leaves the self-signed mode if that is written |
| `Commands.Env.AdoptItem` | core/crates/omdrop-identity/src/lifecycle.rs:845-865 | changes nothing if refused; the item changes only with the old key gone or kept by a clearing in vain, the mode only after the ids, the generation exactly by adoptions that report success |
| `Selection.SelectExactly` | core/crates/omdrop-identity/src/contract.rs:362-423 | both directions: the cache only through a live 1Password window with its fetch id, the disk identity only in disk mode with a matching pair, a record never with a self-signed pair |
| `Selection.WithoutWindow` | core/crates/omdrop-identity/src/contract.rs:362-423 | without a window: the identity on disk exactly if it is whole, matching and the mode is disk or unset, else the pair, with a warning exactly where something was in the way |
| `Selection.PairExactly` | core/crates/omdrop-identity/src/contract.rs:311-337 | a whole pair is presented, none is made only where that is allowed, half a pair never |
| `Selection.ModeExactly` | core/crates/omdrop-identity/src/contract.rs:350-358 | the open window's source, else the settings' word, else disk |
| `CachePayload.EncodeExactly` | core/crates/omdrop-identity/src/contract.rs:177-232 | parsing a framed payload returns every field and all three parts unchanged if and only if the id, time-order, lifetime, part-size and total-size bounds hold |
| `CachePayload.Encode` | core/crates/omdrop-identity/src/contract.rs:234-267 | succeeds exactly within those bounds, with that frame |
| `CachePayload.ReadHeaderOfText` | core/crates/omdrop-identity/src/contract.rs:177-200 | the compact sorted header is read back field by field |
| `CachePayload.HeaderToTheLetter` | core/crates/omdrop-identity/src/contract.rs:234-267 | the header and the frame, to the letter |
| `SettingsText.Splitlines` | core/crates/omdrop-identity/src/contract.rs:33-68 | the one-pass loop yields exactly the lines, a CR LF pair being one end |
| `SettingsText.LineEndsExactly` | core/crates/omdrop-identity/src/contract.rs:33-68 | each boundary ends one line, and a carriage return with its line feed one |
| `SettingsText.BoundariesExactly` | core/crates/omdrop-identity/src/contract.rs:33-68 | which characters are boundaries |
| `SettingsText.LinesOfUnlines` | core/crates/omdrop-identity/src/contract.rs:33-68 | lines without line ends survive being joined and split again |
| `SettingsText.ParseSettings` | core/crates/omdrop-identity/src/contract.rs:71-78 | the last occurrence of a key wins |
| `SettingsText.KeyOfExactly` | core/crates/omdrop-identity/src/contract.rs:71-78 | a key ends at the first equals sign |
| `SettingsText.SettingSet` | core/crates/omdrop-identity/src/lifecycle.rs:186-200 | keeps every other line in order and appends the changes |
| `SettingsText.SettingSetExactly` | core/crates/omdrop-identity/src/lifecycle.rs:186-200 | the rewritten text reads as the old entries with exactly these changed, if and only if no value holds a line end |
| `StateFiles.Bump` | core/crates/omdrop-identity/src/lifecycle.rs:170-179 | the new text of the shared file holds the counter one higher and every other entry |
| `StateFiles.BumpMovesOneCounter` | core/crates/omdrop-identity/src/lifecycle.rs:160-179 | a bump raises its own counter by one and neither loses nor lowers the other |
| `StateFiles.CounterReads` | core/crates/omdrop-identity/src/lifecycle.rs:160-168 | a counter is read from its decimal text, and as zero where there is none or it does not fit |
| `StateFiles.WindowTextRoundTrip` | core/crates/omdrop-identity/src/contract.rs:106-129 | the text `window` writes parses back to the window it meant |
| `StateFiles.WindowFile` | core/crates/omdrop-identity/src/lifecycle.rs:482-549 | the window file, to the letter |
| `Keyring.KernelKeyring.Publish` | core/crates/omdrop-identity/src/keyring.rs:245-278 | whichever raw operations fail, no key without a timeout is linked at any step; a failure keeps the linked key and never links the staged one; a success links the new payload with its timeout and permissions |
| `Keyring.KernelKeyring.Stage` | core/crates/omdrop-identity/src/keyring.rs:256-266 | timeout, permissions and only then the link; every intermediate state is safe |
| `Keyring.ClampSecs` | core/crates/omdrop-identity/src/keyring.rs:197-199 | the timeout itself wherever it fits, else the nearest that does |
| `Keyring.AddSafeExactly` | core/crates/omdrop-identity/src/keyring.rs:252-255 | staging leaves every linked key its timeout if and only if it does not update the linked key in place |
| `Keyring.RevokeExactly` | core/crates/omdrop-identity/src/keyring.rs:294-301 | after a reported success a key is findable if and only if it was and both calls failed; a reported failure changes nothing |
| `Keyring.SetTimeoutKeepsTimed` | core/crates/omdrop-identity/src/keyring.rs:280-292 | no call and no failure leaves a findable key without a timeout; a key reported absent is still findable if and only if it was to be cleared and both calls failed |
| `SelfSigned.Keys.CreateWith` | core/crates/omdrop-identity/src/selfsigned.rs:82-165 | whatever a competitor does between its steps: no link replaces or removes a file; the clean-up removes another's file if and only if that was put in the key's place between look and removal; on failure a file of its own stays linked if and only if that removal failed; the directory left is exactly the competitor's with these steps |
| `SelfSigned.Keys.CleanUp` | core/crates/omdrop-identity/src/selfsigned.rs:140-148 | removes the key if and only if its look saw it and the removal works, which is harmful if and only if the file was swapped in between |
| `SelfSigned.RemovesAnothersKey` | core/crates/omdrop-identity/src/selfsigned.rs:140-148 | a run in which that happens |
| `SelfSigned.MoveKeepsAPair` | core/crates/omdrop-identity/src/selfsigned.rs:195-222 | after each of the four steps a whole pair stands under the old or the new names; in the end only under the new |
| `SelfSigned.Keys.BeginPair` | core/crates/omdrop-identity/src/lifecycle.rs:431-439 | after creation, with a competitor in between, a legacy pair is moved if and only if the new pair is gone again; the outcome and the directory left are given exactly |
| `SelfSigned.LegacyPairStays` | core/crates/omdrop-identity/src/lifecycle.rs:431-439 | a run with nobody else about in which a movable legacy pair stays where it is |
| `Glob.GlobMatch` | core/crates/omdrop-cli/src/util.rs:207-233 | the loop with last-star backtracking ends and returns exactly whether the pattern matches |
| `Glob.MatchesIffFilled` | core/crates/omdrop-cli/src/util.rs:207-233 | a pattern matches exactly the texts it spells with its stars filled in |
| `Glob.NewStar` | core/crates/omdrop-cli/src/util.rs:214-218 | reaching a star makes every earlier star unnecessary |
| `Glob.Backtrack` | core/crates/omdrop-cli/src/util.rs:221-224 | moving the last star one byte on loses no match and adds none |
| `Versions.Rpmvercmp` | core/crates/omdrop-cli/src/driver.rs:383-452 | the loop over two cursors computes the order on token lists |
| `Versions.Turn` | core/crates/omdrop-cli/src/driver.rs:391-439 | one turn decides as the first tokens do, or goes on past both |
| `VersionMeaning.NumbersByValue` | core/crates/omdrop-cli/src/driver.rs:424-437 | numbers in the same place of two versions compare by value, leading zeros or not, whatever follows; equal ones leave it to what follows |
| `VersionMeaning.WordsByteByByte` | core/crates/omdrop-cli/src/driver.rs:424-437 | of two words in the same place the first differing byte decides, and a proper prefix is older |
| `VersionMeaning.NumbersBeatWords` | core/crates/omdrop-cli/src/driver.rs:417-423 | a number is newer than a word in the same place |
| `VersionMeaning.MoreSeparatorsAreNewer` | core/crates/omdrop-cli/src/driver.rs:401-403 | more separators before the next run are newer |
| `VersionMeaning.LongerIsNewer` | core/crates/omdrop-cli/src/driver.rs:441-451 | a version with more behind it is newer, unless that is a word right behind |
| `VersionOrder.CompareFlips` | core/crates/omdrop-cli/src/driver.rs:383-452 | swapping the arguments reverses the result, for all strings |
| `VersionOrder.CompareOrders` | core/crates/omdrop-cli/src/driver.rs:383-452 | a total preorder on strings that do not end in a separator |
| `VersionOrder.OrderedExactly` | core/crates/omdrop-cli/src/driver.rs:383-452 | a string compares consistently with all of those if and only if it is one of them |
| `VersionOrder.TrailingSeparatorCircle` | core/crates/omdrop-cli/src/driver.rs:441-451 | every string that ends in a separator lies on a circle of three |
| `VersionOrder.Vercmp` | core/crates/omdrop-cli/src/driver.rs:352-365 | epoch, then version, then release when both have one |
| `VersionOrder.VercmpFlips` | core/crates/omdrop-cli/src/driver.rs:352-365 | swapping two versions reverses the result |
| `VersionOrder.VercmpExactly` | core/crates/omdrop-cli/src/driver.rs:352-381 | three versions of which no part ends in a separator are ordered consistently if and only if they are not equal up to a release that one lacks and in which the other two differ |
| `VersionOrder.VercmpOrders` | core/crates/omdrop-cli/src/driver.rs:352-381 | hence a total preorder when all three carry a release, or none does |
| `VersionOrder.CleanEvrExactly` | core/crates/omdrop-cli/src/driver.rs:352-381 | a version compares consistently with all such versions of its shape if and only if neither it nor its release ends in a separator |
| `VersionOrder.ParsedEpochIsClean` | core/crates/omdrop-cli/src/driver.rs:368-381 | the epoch that parsing yields never ends in a separator, so that every parsed version meets the condition above |
| `VersionMeaning.ParsesWholeVersion` | core/crates/omdrop-cli/src/driver.rs:368-381 | the epoch stands before the first colon behind digits, the release behind the last dash |
| `VersionMeaning.ParsesShortForms` | core/crates/omdrop-cli/src/driver.rs:368-381 | without a colon the epoch is zero, without a dash there is no release |
| `VersionOrder.MissingReleaseEqualsAll` | core/crates/omdrop-cli/src/driver.rs:352-365 | a version without a release equals that same version with any release |
| `Checksum.Csum16` | core/crates/omdrop-adv/src/frames.rs:130-144 | the loop returns the complement of the folded word sum |
| `Checksum.FoldExactly` | core/crates/omdrop-adv/src/frames.rs:139-142 | folding ends below 65536, keeps the sum modulo 65535 and gives zero only for zero |
| `Checksum.WordSumAppend` | core/crates/omdrop-adv/src/frames.rs:130-138 | word sums add up over an even split |
| `Checksum.Udp6` | core/crates/omdrop-adv/src/frames.rs:212-242 | emits exactly the packet, or refuses a length over 16 bits |
| `Checksum.ChecksumVerifies` | core/crates/omdrop-adv/src/frames.rs:212-242 | for every accepted packet, the checksum over pseudo-header and emitted segment is zero, also where zero was replaced by 0xffff |
| `PacketFields.Ipv6HeadFields` | core/crates/omdrop-adv/src/frames.rs:230-236 | every field of the IPv6 header by its place |
| `PacketFields.PseudoHeaderFields` | core/crates/omdrop-adv/src/frames.rs:215-219 | every field of the pseudo-header by its place |
| `PacketFields.SegmentFields` | core/crates/omdrop-adv/src/frames.rs:237-241 | ports, length, checksum and payload by their place |
| `Frames.Wrap` | core/crates/omdrop-adv/src/frames.rs:247-268 | exactly the plain or SNAP frame, or a refusal when the length does not fit |
| `PacketFields.FrameAddresses` | core/crates/omdrop-adv/src/frames.rs:247-256 | destination, source and type of both frames by their place |
| `PacketFields.SnapFields` | core/crates/omdrop-adv/src/frames.rs:257-266 | the encapsulation behind the addresses, byte by byte |
| `Frames.PlainRoundTrip` | core/crates/omdrop-adv/src/mdns.rs:86-113 | a plain frame is read back as its MAC and exactly its message |
| `Frames.SnapRoundTrip` | core/crates/omdrop-adv/src/mdns.rs:86-113 | a SNAP frame is read back if and only if its length field is at most 1500, and otherwise not at all |
| `DnsNames.CheckName` | core/crates/omdrop-adv/src/frames.rs:74-95 | accepts exactly names of printable characters whose labels and total fit |
| `DnsNames.Dname` | core/crates/omdrop-adv/src/frames.rs:98-108 | the labels on the wire and a zero byte, for exactly the good names |
| `DnsNames.DnsName` | core/crates/omdrop-adv/src/mdns.rs:18-57 | ends on every packet by hops and bytes left, and reads what `ReadName` says |
| `DnsNames.NameRoundTrip` | core/crates/omdrop-adv/src/mdns.rs:18-57 | a written name at any offset of any packet is read as itself, lowercased, without empty labels, and the offset after it |
| `NameMeaning.NameComesBack` | core/crates/omdrop-adv/src/frames.rs:98-108 | a written name is read back as the name itself, lowercased, if it has no empty label; otherwise those are all that is lost |
| `NameMeaning.LabelsJoin` | core/crates/omdrop-adv/src/frames.rs:101-105 | a dot between two names puts their labels one after the other |
| `NameMeaning.OneLabel` | core/crates/omdrop-adv/src/frames.rs:101-105 | a nonempty name without dots is its own single label |
| `NameMeaning.NoDotInLabels` | core/crates/omdrop-adv/src/frames.rs:101-105 | no label holds a dot |
| `NameMeaning.LowerExactly` | core/crates/omdrop-adv/src/mdns.rs:43-53 | lowercasing turns each upper-case letter into its own lower-case one and nothing else |
| `DnsNames.ReadsSpelled` | core/crates/omdrop-adv/src/mdns.rs:18-57 | a name in parts chained by pointers is read as all its labels if at most sixteen pointers are used, and refused otherwise |
| `DnsNames.ReadsExactly` | core/crates/omdrop-adv/src/mdns.rs:18-57 | a packet has a name at an offset if and only if one is spelled there with at most sixteen pointers |
| `DnsNames.Questions` | core/crates/omdrop-adv/src/mdns.rs:62-79 | all the names, or none |
| `NameMeaning.QueryExactly` | core/crates/omdrop-adv/src/mdns.rs:62-79 | what counts as a query, by its bytes |
| `DnsNames.ReadsQuestions` | core/crates/omdrop-adv/src/mdns.rs:62-79 | questions laid out in a query are read as exactly their names |
| `Chunked.ReadsEncoded` | bin/airdrop-serve.py:386-417 | every chunked encoding of a body that fits, with any extensions and trailers, is read as that body up to the end of its trailer; one that does not fit is refused as too large |
| `Chunked.ReadsExactly` | bin/airdrop-serve.py:386-417 | a stream is read to the end if and only if it starts with an encoding of that body that fits |
| `Chunked.TextSplit` | bin/airdrop-serve.py:386-417 | an encoding with bytes behind it is the encoding followed by those bytes |
| `Chunked.WholeChunksOfEncoded` | bin/airdrop-serve.py:386-417 | whole chunks of an encoding are its first parts |
| `Chunked.GoesOnAtBoundary` | bin/airdrop-serve.py:386-417 | reading on after whole chunks gives what reading from the start gives |
| `Chunked.HexLine` | bin/airdrop-serve.py:388-398 | the size in hexadecimal is accepted as that size if and only if the line is at most 128 bytes |
| `Chunked.HexLineExtended` | bin/airdrop-serve.py:388-398 | so is the size with any extension behind it |
| `ChunkSizes.PythonHexExactly` | bin/airdrop-serve.py:394-396 | a token is read as a size if and only if it is a sign, a prefix and a spelling of that number in digits of either case, with single underscores between; the first two optional |
| `ChunkSizes.SizeInDigits` | bin/airdrop-serve.py:388-398 | so every spelling in digits of either case, with leading zeros or not and any extension, is a size line for its number exactly if it is short enough |
| `ChunkSizes.SizeOfToken` | bin/airdrop-serve.py:393-396 | white space around a token and an extension behind it make no difference |
| `ChunkSizes.DigitsExactly` | bin/airdrop-serve.py:394-396 | which byte is which digit |
| `BodyReader.ReadChunked` | bin/airdrop-serve.py:386-417 | for every fragmentation and pattern of silences, the end, the bytes stored and the bytes left unread are those of the stream alone, unless a wait reaches the idle timeout, a write is refused or the archive is whole; at most two completeness checks, each with whole chunks stored; silences below the idle timeout never end it |
| `BodyReader.DeliversEncoded` | bin/airdrop-serve.py:386-417 | hence an encoding that fits is delivered whole, consuming exactly up to the end of its trailer |
| `BodyReader.CompleteHoldsWholeChunks` | bin/airdrop-serve.py:430-432 | a body taken as complete early holds whole chunks and nothing else |
| `BodyReader.CopyExact` | bin/airdrop-serve.py:371-383 | stores exactly the next bytes, or all there are if the stream ends first |
| `BodyReader.PatientReader.Attempt` | bin/airdrop-serve.py:503-510 | a wait that runs out consumes nothing |
| `BodyReader.PatientReader.Call` | bin/airdrop-serve.py:497-519 | consumes nothing unless bytes come; a silence of the whole idle timeout ends it and no shorter one does; checks at most once and only if allowed; a sender quiet over a whole archive ends it there |
| `BodyReader.SilentExactly` | bin/airdrop-serve.py:496-519 | such a silence is ten waits that run out |
| `BodyReader.PatientReader.Take` | bin/airdrop-serve.py:524-542 | the line or bytes taken are those of the pending stream, however it is cut; a completeness check happens only before the first byte of a line, and there a quiet sender's whole archive is found |
| `BodyReader.ArchiveIsComplete` | bin/airdrop-serve.py:434-461 | says yes only to a whole archive, and to every one that decodes within the limit and the disk's room; gives back the space it used and keeps the floor |
| `Limits.ByteLimitExactly` | bin/airdrop-serve.py:262-274 | the budget is the largest that leaves the floor free and stays within the percentage |
| `Limits.AccountKeepsFloor` | bin/airdrop-serve.py:327-346 | a write of at most the check interval leaves the floor and the invariant free >= floor + bytes until the next check |
| `Limits.FloorExactly` | bin/airdrop-serve.py:327-346 | single writes of a size are safe for every disk if and only if the size is at most the check interval |
| `Limits.LimitedWriter.Write` | bin/airdrop-serve.py:327-346 | a refused write changes nothing, a taken one adds exactly its bytes, and free space never drops below the floor |
| `Limits.LimitedWriter.WriteAll` | bin/airdrop-serve.py:598-636 | writes the decoded blocks in order within the limit, failing only for lack of limit or room |
| `FreeNames.Folder.OpenNew` | bin/airdrop-serve.py:649-660 | creates an empty file under the first free candidate and touches no other |
| `FreeNames.FirstFreeExactly` | bin/airdrop-serve.py:649-660 | that name is the first candidate not taken |
| `FreeNames.NameIsFound` | bin/airdrop-serve.py:649-660 | with fewer files than candidates a name is always found |
| `StoredFiles.SplitExtExactly` | bin/airdrop-serve.py:649-652 | where a name is cut for a number: at the last dot of its last component, if anything but dots stands before it there |
| `StoredFiles.CandidateExactly` | bin/airdrop-serve.py:652-653 | the candidates for a name, to the letter |
| `Extraction.StoreUpload` | bin/airdrop-serve.py:691-737 | all or nothing at every failure point: the folder as before, or as `Stored` says; space is conserved, the floor kept; with room it fails only on a faulty archive |
| `Extraction.LaidExactly` | bin/airdrop-serve.py:691-737 | on success the returned names are new and distinct, no other file changed, output bytes and members within the limits |
| `StoredFiles.StoredExactly` | bin/airdrop-serve.py:708-729 | on success exactly the regular members whose last component does not start with `._` became files, one to one and in order, each under the first free candidate for its name, with its own blocks |
| `StoredFiles.LaidSucceedsExactly` | bin/airdrop-serve.py:708-729 | with names enough, extraction succeeds if and only if there are at most 512 members and every such member's calls work and its declared and actual sizes fit where its turn comes |
| `StoredFiles.SkippedExactly` | bin/airdrop-serve.py:711-714 | which members are passed over |
| `Extraction.Extract` | bin/airdrop-serve.py:708-729 | stores members in order up to the first failure, always leaving exactly what the clean-up can undo |
| `Extraction.ExtractOne` | bin/airdrop-serve.py:710-729 | counts, skips, refuses or stores one member as the specification does |
| `Extraction.UnlinkAll` | bin/airdrop-serve.py:730-736 | removes exactly the created files and releases exactly their bytes |
| `Extraction.SinkWrite` | bin/airdrop-serve.py:676-688 | the archive's budget and the file's limit bound every write |
| `Upload.HandleUpload` | bin/airdrop-serve.py:1007-1075 | for any stream, cut, silences and failures, the upload keeps the floor of free space; unless it is stored, folder and free space end as they were; if it is, exactly its body's archive was added; with room, no idle timeout and a body that fits, only a faulty archive is not stored |
| `Upload.ReadBody` | bin/airdrop-serve.py:551-563 | the body stored is the one the stream holds, by length or in chunks, within the limit; it fails only without such a body, at the idle timeout or for want of room |

## Left out

- Cryptography, openssl, the Apple validation checks and zlib: they appear as parameters or uninterpreted functions.
- The JSON library behind the payload header: the header is the compact sorted text that `encode_payload` writes; other spellings of the same object are not modelled.
- D-Bus, BLE, file chooser, notifications, clipboard, systemd and process spawning: I/O plumbing; starting the receiver and the radio are single steps of the protocol.
- Raw sockets, credential dropping, passwd and sysfs: system calls.
- Argument parsers and message texts: they would only add easy members.
- `bin/lifecycle.py` and `bin/identity.py`: twins of the Rust code that is modelled.
- omdrop-proto, omdrop-receiver and omdrop-radio are not part of this model.
- `safe_name` and shell or systemd quoting: a received member carries the cleaned name as a field.
- A repeated `on` whose expiry timer cannot be armed, settings edited by hand, and `omdrop-cli`'s own settings rewrite without the lock: outside the protocol's assumptions.
- The fetch's pid file and killing a running fetch: a process of the protocol may stop at any step instead.
- The clock in fractions of a second, and the clock going backwards.
- The counters' wrap-around at 2^64 in the protocol: `StateFiles.BumpMovesOneCounter` has it, the state machine counts without bound.
- The order in which the state file's entries are written: only what they parse to.
- The difference between a dangling link and a missing file, and directories in place of files.
- The kernel's own rules for updating a key in place and for searching are assumptions of `Keyring`.
- The width of the checksum's accumulator: a sum of 64-bit width does not overflow for any packet that fits in memory.
- The resource records `rr`, `announcement` and `reply` put around names: only easy members.
- ReadDeadline: the minimum read rate is not modelled, so a run it would end goes on here.
- Limits.LimitedWriter.Write: writers without the disk check, which write small bodies to memory, are not modelled.
- Disk space in blocks, file-system metadata and buffering: a write takes exactly its bytes at once, and the upload is the only consumer.
- Extraction.StoreUpload: unlinks are taken to succeed, no one else changes the folder meanwhile, and a file descriptor that cannot be wrapped after its file was created is not modelled.
- Upload.HandleUpload: headers, slots, status codes, the contacts policy and draining the connection after an early answer.
- DVZip block framing: decoding is the list of blocks it writes and whether it ends well.
