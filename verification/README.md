# cred-mcp: a verified model

cred-mcp is a server that hands secrets to tools without showing them to the assistant that calls
it. This project models, in Dafny, the parts of it whose correctness no single function shows, and
proves what they promise over every input and every run.

**The sealed-credential protocol** (`Protocol`, `ProtocolRuns`, `ProtocolReplies`, over `Sessions`, `Registry`,
`RegistryCache`, `Authz`, `VaultCache` and `Seal`). Every call but a ping passes a session with an
idle and an absolute time limit. `request_authorization` checks the consumer registry, asks the user
when the registry says so, and issues a single-use token; `vault_seal` verifies the consumer's
bundle, spends the token, fetches the password through a cached and retrying vault client, and seals
it to the consumer's session. The stateful parts are classes whose methods are proved equal to a step
function; the theorems are about all runs of those steps. The main one is
`ProtocolRuns.DeliveriesAreApproved`: deliveries map injectively to earlier approvals of the same
item, consumer and purpose, with no assumption that tokens are fresh or that the clock is monotone.
`ProtocolRuns.SpentExactly` is its converse under a monotone clock: a sealing that gets to its token
is let through exactly when some approval is still good for it. `ProtocolReplies` says, by what a call
is given and meets, exactly when it is denied, approved, delivered or refused
(`ProtocolReplies.DeliversExactly`), and that an approval leads to a delivery
(`ProtocolReplies.ApprovalDelivers`).

**The token store and the registry cache under concurrency** (`AuthzConcurrent`, `RegistryCache`).
Lock-protected sections are single steps of any number of callers; clock readings taken before the
lock and judgements passed after it are separate steps.

**The Bitwarden type-2 encrypted string and the records built on it** (`Pkcs7`, `Cbc`, `Base64`,
`EncString`, `VaultItems`, `VaultWrites`). Padding (section 6.3 of RFC 5652), block chaining (section
6.2 of NIST SP 800-38A), base64 (section 4 of RFC 4648) and the `2.iv|ct|mac` framing are written
out. The block cipher is any keyed permutation of 16-byte blocks and the digest any function. On top
of them, adding, searching, reading and updating records on a server that is a map from id to record.

**State that must agree with something simpler** (`Clipboard`, `Index`, `Stash`): overlapping
clipboard windows, the index file against a map, and the index against the keychain when index
writes may fail.

Where the code does not keep a promise outright, the exact condition under which it does is proved:

- Decryption is meant to answer with a text or an error. It crashes the process instead on exactly the
  well-framed strings whose MAC matches, whose ciphertext is whole blocks and whose IV is not 16 bytes
  long (`EncString.PanicsExactly`, and `EncString.EmptyIvPanics` for such a string); what `encryptStr`
  wrote is never one of them (`EncString.RoundTrip`).
- An update that keeps a name or username overrides exactly the supplied fields if and only if what is
  kept can be decrypted; otherwise the code writes it back empty
  (`VaultWrites.UpdateOverridesExactly`, and `VaultWrites.NameIsLost` for such an update).
- The original clipboard content comes back when windows end newest first
  (`Clipboard.NestedRestores`). For secrets that differ from one another and from the original
  content that is also necessary (`Clipboard.RestoredExactly`), and otherwise a secret is left behind
  (`Clipboard.LeftBehindExactly`), as in `Clipboard.CrossedWindows`.

The comment on `clipboard.SetWithAutoClear` promises that the previous value is restored; with
overlapping windows the code does not keep that, and the model follows the code. An approval mode
other than `required`, a misspelt one included, does not prompt; `Registry.AclOfFile` says which
entries of the file do.

Conventions: times are mathematical integers of nanoseconds; the clock, the user's answers, random
values, the registry file and the vault server's answers are inputs of each call. `Outcome` has a
third case for a crash, next to success and error. Functions named like a verb in the past tense
(`Touched`, `Loaded`, `Sealed`, `Updated`) are the specifications that the methods are proved
against.

## Model

| member | source | states |
|---|---|---|
| ProtocolRuns.DeliveriesAreApproved | internal/mcp/sealed.go:82-204 | in every run the boxes delivered map injectively to earlier approvals of the same item, consumer and purpose: ACL of the one cached registry allowed the triple, the prompt succeeded if required, the token check is within the clamped time to live, both calls passed the session, and the box names the triple; tokens may repeat and the clock may go back |
| ProtocolRuns.DeliveryHasApproval | internal/mcp/sealed.go:135-204 | each delivery is justified by the approval that last named its token |
| ProtocolRuns.ServesOnce | internal/authz/authz.go:66-84 | an approval that justifies a delivery justifies no later one |
| ProtocolRuns.SpentExactly | internal/mcp/sealed.go:167-170 | on a monotone clock, a sealing that gets to its token is let through if and only if some approval has its binding, has not expired, and no call since has named its token; so sweeps do not show |
| ProtocolRuns.TokensFollow | internal/mcp/sealed.go:82-204 | the tokens of a run are those of a store on which exactly the recorded operations were performed, so what is proved of the store holds of runs |
| ProtocolRuns.SpentVerdict | internal/mcp/sealed.go:167-170 | the judgement on a token in a run is the verdict of the store's history at that call |
| ProtocolRuns.IssueIsApproval | internal/mcp/sealed.go:82-123 | the approvals of a run are exactly its issues |
| ProtocolRuns.HeldIsRecent | internal/mcp/sealed.go:90-107 | right after an approval every token held was issued, by an approval, no more than 1800 s before, and on a monotone clock no later than now |
| ProtocolRuns.OneRegistry | internal/mcp/sealed.go:41-71 | the registry a run has cached at any time is the one it has cached at its end |
| ProtocolRuns.EntrySound | internal/mcp/sealed.go:82-204 | whatever the call and the state before it, a token is issued only for an ACL grant with its approval, and a box delivered only to a verified, registered consumer whose token was accepted |
| ProtocolRuns.AuthorizeSound | internal/mcp/sealed.go:82-123 | an issued token or an approval reply each imply all of: session passed, vault configured, ACL grant, approval when required, time to live in 1..1800 s and kept if asked for in that range |
| ProtocolRuns.SealSound | internal/mcp/sealed.go:135-204 | a sealing never issues a token, and delivers only if the consumer was verified, known by its identity key, and its token accepted |
| ProtocolRuns.SpendSound | internal/mcp/sealed.go:167-203 | past the registry, a sealing spends its token whatever comes after, and delivers the password that its own fetch read, in a box that names the item, consumer, session and purpose and expires within 3600 s |
| ProtocolRuns.FetchSucceeds | internal/mcp/sealed.go:172-180 | a fetch that succeeds, at the first or the second attempt, leaves a client cached and read the item's password with that client off the server as it stood when it answered |
| ProtocolRuns.SpendDecides | internal/mcp/sealed.go:167-170 | a sealing that gets to its token is turned away there just when the store's judgement is not acceptance |
| ProtocolRuns.StepKeeps | internal/mcp/server.go:515-570 | a call changes the token store by its one recorded operation or not at all, and never a cached registry |
| ProtocolRuns.SessionFollows | internal/mcp/server.go:515-570 | the session of a run is the session after exactly the touches of its calls other than pings |
| ProtocolRuns.GatedCallIsUnlocked | internal/mcp/server.go:515-570 | every call that passed the gate descends from an unlock through touches that kept the idle and the absolute limit |
| ProtocolRuns.DeliveredBoxOpens | internal/seal/seal.go:18-54 | the consumer session opens a delivered box, from the box, its key and its bundle's expiry alone, to the password of the item the caller asked for, as this call's fetch read it off the server it met with the client the run has cached after the call |
| ProtocolReplies.DeniedExactly | internal/mcp/server.go:515-530 | any call but a ping is denied if and only if the session was never unlocked, was locked or has overrun a limit, and the user does not unlock; then nothing but the session changes; a ping changes nothing, and after a crash nothing is done |
| ProtocolReplies.RefusedIsDenied | internal/mcp/server.go:515-530 | in a run, a refused touch is answered with its denial, no other call is, and a denied call leaves tokens, vault cache and registry alone |
| ProtocolReplies.ApprovesExactly | internal/mcp/sealed.go:82-123 | a request is approved if and only if the session, the vault, the arguments, a registry whose patterns cover item and purpose, the user where the mode is required, and randomness are there; then the token is held for the triple for the seconds asked for, 300 if none and 1800 at most |
| ProtocolReplies.DeliversExactly | internal/mcp/sealed.go:135-204 | a sealing delivers if and only if the session, the vault, the arguments, a verified consumer known by the same key, an unexpired token for the triple, a vault that yields the password, a box id and a session key that seals are there; then it is the box of that password, bound to all it names, valid for the seconds asked for, 300 if none and 3600 at most, and the token is spent |
| ProtocolReplies.ApprovalDelivers | internal/mcp/sealed.go:82-204 | in a run, an approval that no call has named and no clock has outlived, followed by a sealing for its triple by its verified consumer with a working vault, delivers |
| ProtocolReplies.FetchYields | internal/mcp/sealed.go:172-180 | the fetch gives a text if and only if the cached or a newly connected client is served, at once or after a 401 and a reconnection, a login whose password decrypts to it |
| ProtocolReplies.UnavailableExactly | internal/mcp/server.go:546-549 | a call past the session is refused as unavailable exactly if it is for a vault tool and the vault is not configured |
| ProtocolReplies.AuthorizationRefusals | internal/mcp/sealed.go:82-111 | which of missing arguments, an unavailable registry, a declined prompt and missing randomness a request is refused for |
| ProtocolReplies.SealingRefusals | internal/mcp/sealed.go:140-165 | which of missing arguments, a garbled or rejected bundle, an unavailable registry, an unknown consumer and another key a sealing is refused for |
| ProtocolReplies.SpendRefusals | internal/mcp/sealed.go:167-170 | a token is refused as not found, expired or mismatched by what the store holds and the clock of the check, in this order |
| ProtocolReplies.ToolRuns | internal/mcp/server.go:144-160 | a vault tool runs with the cached or a new client; a 401 drops that client and runs the tool again with a new one; tokens and registry stay, and only the tool's own crash brings the process down |
| ProtocolReplies.VaultIsSound | internal/mcp/server.go:124-160 | at every moment of every run a cached client means no cached error |
| Protocol.Server.constructor | internal/mcp/sealed.go:29-34 | a fresh server has a new session and nothing cached or issued |
| Protocol.Server.HandleToolCall | internal/mcp/server.go:515-570 | a call takes the server to the state and the reply of `Handle`: pings skip the session, a refused touch ends the call, vault tools need the vault configured |
| Protocol.Server.HandleRequestAuthorization | internal/mcp/sealed.go:82-123 | the handler's new state and reply are those of `Authorize`, on every error path as well |
| Protocol.Server.HandleVaultSeal | internal/mcp/sealed.go:135-204 | the handler's new state and reply are those of `SealSecret`, on every error path as well |
| Protocol.Server.SpendAndSeal | internal/mcp/sealed.go:167-203 | from the spending on, the new state and reply are those of `SpendToken`; the token is gone on every path |
| Protocol.ClampedRange | internal/mcp/sealed.go:206-213 | a clamped value is in 1..max, values in range are kept, others go to the default or the maximum |
| Protocol.IntCell.Clamp | internal/mcp/sealed.go:206-213 | clamping in place gives the clamped value |
| Authz.Store.constructor | internal/authz/authz.go:32-34 | a new store is empty |
| Authz.Store.Issue | internal/authz/authz.go:38-62 | an issue first drops exactly the entries expired by then, then holds the token for its binding until its expiry; with no randomness nothing changes |
| Authz.Store.Sweep | internal/authz/authz.go:49-54 | the loop leaves exactly the entries not yet past their expiry, whatever order it walks |
| Authz.Store.Take | internal/authz/authz.go:66-72 | the locked half removes the token and nothing else, and hands out what it held |
| Authz.Store.Consume | internal/authz/authz.go:66-84 | the token is gone afterwards whatever the verdict; not found, expired and mismatched are told apart in that order |
| Authz.Store.PurgeExpired | internal/authz/authz.go:88-97 | exactly the expired entries go |
| Authz.HeldWasIssued | internal/authz/authz.go:38-97 | every token held was issued by the latest event that names it, with the binding and expiry given there |
| Authz.HeldUntilExpired | internal/authz/authz.go:38-97 | what was issued and not named since is held as long as no later operation reads a clock past its expiry |
| Authz.AcceptedWasIssued | internal/authz/authz.go:66-84 | an accepted consumption has an issue that is good for it, whatever the clock does |
| Authz.AcceptedExactly | internal/authz/authz.go:66-84 | a consumption is accepted if and only if the last earlier call naming its token issued it for that very binding and its time to live has not run out |
| Authz.RejectedExactly | internal/authz/authz.go:74-83 | a consumption is turned away for its binding exactly if the last issue of its token is in time and for another one, and otherwise as not found or, only past its expiry, as expired |
| Authz.HeldIsRecent | internal/authz/authz.go:38-62 | right after an issue, everything held was issued within the ceiling on times to live, and on a monotone clock no later than now |
| AuthzConcurrent.StepsAreStoreMethods | internal/authz/authz.go:38-97 | the locked steps of the interleaving do what the store's methods do |
| AuthzConcurrent.AcceptedOnce | internal/authz/authz.go:66-84 | in every interleaving an insertion is accepted at most once, only on its exact binding, and at a check time not after its expiry |
| AuthzConcurrent.JudgedExactly | internal/authz/authz.go:74-83 | in every interleaving each verdict follows what was taken out, its expiry and its binding |
| AuthzConcurrent.RunOneJudge | internal/authz/authz.go:66-84 | an insertion that was taken out is with one caller or judged once, never both nor twice |
| AuthzConcurrent.RunPartition | internal/authz/authz.go:38-97 | every insertion is in exactly one place: held, taken, swept or overwritten |
| AuthzConcurrent.Accounting | internal/authz/authz.go:38-97 | insertions = held + removed by consumption + swept + overwritten, in every interleaving |
| AuthzConcurrent.OnlyExpiredIsSwept | internal/authz/authz.go:45-54 | no sweep removes an unexpired token, though its clock was read before the lock |
| AuthzConcurrent.SweepingDoesNotShow | internal/authz/authz.go:45-97 | the same interleaving over a store that never sweeps accepts exactly the same consumptions; verdicts differ only as not found against expired |
| AuthzConcurrent.HeldAfterIssue | internal/authz/authz.go:38-62 | right after an insertion stamped `now` everything held was stamped no earlier than `now` less the ceiling |
| Sessions.Session.constructor | internal/session/session.go:86-97 | a session starts new, never unlocked |
| Sessions.Session.Touch | internal/session/session.go:116-153 | a touch gives the state and reply of `Touched`: silent within both limits, otherwise as the unlock policy answers |
| Sessions.Session.Lock | internal/session/session.go:164-168 | a lock expires the session and keeps its times |
| Sessions.SilentExactly | internal/session/session.go:116-138 | a touch is granted without a prompt if and only if an earlier unlock opened a window that reaches it: no lock, no pause over the idle limit, the unlock no older than the absolute limit |
| Sessions.GrantedHasUnlock | internal/session/session.go:116-153 | every granted touch has a most recent unlock behind it, with nothing but silent touches within both limits since |
| Sessions.RefusedExactly | internal/session/session.go:140-149 | a touch is refused exactly when it prompts and the user declines, and wraps the expiry error exactly when the session had been unlocked or locked before |
| Sessions.NewExactly | internal/session/session.go:86-153 | a session is still new exactly when it was never unlocked or locked |
| Sessions.UnlocksAreRare | internal/session/session.go:116-153 | without locks, k unlocks span more than k-1 times the shorter limit |
| Sessions.UnlocksLast | internal/session/session.go:116-153 | of a user who never pauses longer than the idle limit, k unlocks cover at most k absolute and k-1 idle limits |
| Registry.MatchesExactly | internal/registry/registry.go:109-122 | a pattern matches itself and, if it ends in a star, exactly the strings that start with what stands before the star |
| Registry.MatchAny | internal/registry/registry.go:111-122 | the loop finds a match exactly when some pattern of the list matches |
| Registry.CheckACL | internal/registry/registry.go:95-107 | the reply is `Acl`'s: unknown consumer, denied item and denied purpose in that order, or the approval mode |
| Registry.Load | internal/registry/registry.go:53-82 | loading succeeds exactly when every identity key is hexadecimal; each consumer is resolved with its lists and an approval mode defaulting to required; a failure names a consumer whose key is bad |
| Registry.HexDecodeExactly | internal/registry/registry.go:66-69 | an identity key decodes to given bytes exactly if it spells each with two digits, the high one first, in either case |
| Registry.AclOfFile | internal/registry/registry.go:53-107 | the loaded registry grants exactly the item and purpose patterns of the file, says which of consumer, item and purpose it lacks, and asks the user exactly when the file's mode is missing or says required |
| RegistryCache.Cache.constructor | internal/mcp/sealed.go:31-34 | nothing is cached at first |
| RegistryCache.Cache.LoadLocked | internal/mcp/sealed.go:49-70 | under the write lock a cached registry is kept, otherwise a readable file is cached and a failure leaves nothing |
| RegistryCache.Cache.LoadRegistry | internal/mcp/sealed.go:41-71 | the whole call, both looks included, does the same as the locked part alone |
| RegistryCache.RunExclusive | internal/mcp/sealed.go:41-71 | in every interleaving of readers and writers at most one caller holds the write lock, and then no reader does; what a writer found absent stays absent |
| RegistryCache.LoadedOnce | internal/mcp/sealed.go:41-71 | for any interleaving, over a file that may change or vanish, the cache is written at most once, calls complete with errors before and with that one registry after, and failures leave the cache empty |
| RegistryCache.CachedForGood | internal/mcp/sealed.go:41-71 | once cached, the registry stays, whatever happens to the file |
| RegistryCache.UndisturbedCall | internal/mcp/sealed.go:41-71 | a caller that is alone answers what is cached, and with nothing cached reads the file, answers what it finds and keeps a success, in its seven steps as in the class method |
| VaultCache.Cache.constructor | internal/mcp/server.go:93-97 | neither a client nor an error is cached at first |
| VaultCache.Cache.VaultClient | internal/mcp/server.go:124-140 | the client, the cached error and its time afterwards are those of `GetClient` |
| VaultCache.Cache.WithVault | internal/mcp/server.go:144-160 | the cache, the server and the answer afterwards are those of `RunWith` |
| VaultCache.WithVaultRetriesOnce | internal/mcp/server.go:144-160 | the function runs at most twice; a first 401 is followed at once by a connection attempt, so backoff never suppresses re-authentication; any other answer is final; a cached client and a cached error never coexist |
| VaultCache.ConnectsExactly | internal/mcp/server.go:124-135 | a connection is tried exactly if there is no client and no failure within the backoff; within it the cached error is answered and nothing else happens |
| VaultCache.AnswerIsPassedOn | internal/mcp/server.go:144-160 | what the function answers, if not a 401, is the answer, after one run, and the client stays |
| VaultCache.AnswerAfter401 | internal/mcp/server.go:144-160 | after a 401 the new client's answer, or the error of the new connection, is the answer, and is what is cached |
| VaultCache.FailureIsKept | internal/mcp/server.go:130-135 | a connection that fails is the answer and is kept with the time of its failure |
| VaultCache.OkComesFromCall | internal/mcp/server.go:144-160 | a success is the answer of the function itself, called with the client that is cached from then on, at once or after the reconnection that a 401 brings, and the world is as that call left it |
| VaultCache.SuccessRanOnce | internal/mcp/server.go:144-160 | if a 401 and a connection leave the server unchanged, a success has the effect of exactly one run of the function, with the client cached from then on, on the server as it was |
| VaultCache.AddsExactlyOne | internal/mcp/server.go:144-160 | a successful add through the wrapper creates exactly one item, read back with the details given by the client cached after the call, even after an expired session |
| VaultCache.FailuresArePaced | internal/mcp/server.go:124-140 | over any run of calls, f failed connections span at least f-1 backoffs, and a cached client means no cached error |
| VaultCache.HistoryPaced | internal/mcp/server.go:124-140 | consecutive failed connections are a backoff apart, also when calls take time and clients are dropped in between |
| Seal.BoxOpens | internal/seal/seal.go:18-54 | what a consumer rebuilds from the box and its bundle is what the ciphertext was bound to, so the box opens to the secret |
| Seal.Zeroize | internal/seal/seal.go:57-61 | every byte of the buffer is zero afterwards |
| Seal.SealAndZeroize | internal/seal/seal.go:64-68 | the box is sealed from what the buffer held, and the buffer is wiped whether or not sealing succeeds |
| Pkcs7.PadLength | internal/vault/crypto.go:150-153 | padding adds 1 to 16 bytes and ends on a block boundary |
| Pkcs7.UnpadPad | internal/vault/crypto.go:150-167 | unpadding undoes padding, for every text |
| Pkcs7.PadUnpad | internal/vault/crypto.go:150-167 | what unpads, on a block boundary, is the padding of what it unpads to |
| Pkcs7.PadExactly | internal/vault/crypto.go:150-153 | a padded text is the text, then 1 to 16 bytes up to a block boundary, each of them the number of bytes added |
| Pkcs7.UnpadsExactly | internal/vault/crypto.go:155-167 | exactly what ends in a byte from 1 to 16, repeated as often as it says, unpads, and loses those bytes |
| Pkcs7.UnpadExact | internal/vault/crypto.go:155-167 | on block boundaries a text unpads to another exactly when it is that one's padding |
| ByteStrings.XorBytesBits | internal/vault/crypto.go:108-109 | the combination that chaining uses sets a bit exactly where its operands differ |
| Cbc.DecryptEncrypt | internal/vault/crypto.go:104-109 | chained decryption undoes chained encryption, whatever the key, IV and blocks |
| Cbc.EncryptDecrypt | internal/vault/crypto.go:104-109 | chained encryption undoes chained decryption |
| Cbc.ChainsExactly | internal/vault/crypto.go:136-137 | chained encryption is exactly what encrypts each block combined with the block of ciphertext before it, the first with the IV |
| Cbc.DecryptChains | internal/vault/crypto.go:108-109 | chained decryption is exactly what is so related to its ciphertext |
| Cbc.EncryptBlocks | internal/vault/crypto.go:136-137 | the block loop fills the buffer with the chained encryption |
| Cbc.DecryptBlocks | internal/vault/crypto.go:108-109 | the block loop fills the buffer with the chained decryption |
| Base64.DecodeEncode | internal/vault/crypto.go:142-146 | decoding undoes encoding, for every byte string |
| Base64.DecodeExact | internal/vault/crypto.go:80-91 | a text decodes to given bytes exactly when, without its line breaks and with its unused trailing bits cleared, it is their encoding |
| Base64.EncodeAlphabet | internal/vault/crypto.go:142-146 | an encoding is made of whole groups of digits and padding signs only |
| Base64.ValueOfAlphabet | internal/vault/crypto.go:142-146 | the digits are the 64 of the standard alphabet in its order, and no other character has a value |
| Base64.EncodesBits | internal/vault/crypto.go:142-146 | every four digits spell the number of their three bytes, a last group that of its one or two bytes with zero bits and padding signs |
| Base64.StripExactly | internal/vault/crypto.go:80-91 | decoding skips carriage returns and line feeds, wherever they stand, and nothing else |
| EncString.IndexOf | internal/vault/crypto.go:63-66 | the first occurrence is found if there is one |
| EncString.JoinSplit | internal/vault/crypto.go:75-78 | the parts of a split, joined by the separator, spell the text |
| EncString.PartsAreFree | internal/vault/crypto.go:75-78 | no part of a split holds the separator |
| EncString.SplitJoin | internal/vault/crypto.go:75-78 | parts free of the separator, joined, split into themselves |
| EncString.TypeTwo | internal/vault/crypto.go:70-73 | a type prefix reads as 2 exactly when it is an optional plus sign, any number of zeros and a 2 |
| EncString.ParseExact | internal/vault/crypto.go:63-91 | a text parses to three parts exactly when it is a type-2 prefix, a dot and three texts separated by bars that stand for them |
| EncString.OpenExact | internal/vault/crypto.go:93-117 | parts open to a text exactly when the key has a valid size, the IV 16 bytes, and they are the parts that encrypting the text under that IV gives |
| EncString.AcceptsExactly | internal/vault/crypto.go:58-118 | a non-empty string decrypts to a text if and only if it spells, for some IV, the encryption of that text under both keys; the empty string decrypts to the empty text |
| EncString.DecryptsExactly | internal/vault/crypto.go:58-118 | a non-empty string decrypts to a text if and only if it spells parts with a 16-byte IV, a MAC that is the digest of IV and ciphertext, and a ciphertext that chains the padded text under a key of 16, 24 or 32 bytes |
| EncString.EncryptsExactly | internal/vault/crypto.go:122-148 | encryption fails only for lack of randomness or a key of the wrong size, and gives the type, a dot and the base64 of such an IV, ciphertext and MAC separated by bars; the empty text gives the empty string |
| EncString.PanicsExactly | internal/vault/crypto.go:93-109 | decryption crashes exactly on a well-framed string with a matching MAC, a valid key, whole blocks, and an IV that is not 16 bytes |
| EncString.EmptyIvPanics | internal/vault/crypto.go:93-109 | an input on which it crashes, for any keys: an authentic string with an empty IV and ciphertext |
| EncString.RoundTrip | internal/vault/crypto.go:58-148 | every text, the empty one included, encrypted under any IV and keys is decrypted to itself |
| EncString.NoDelimiter | internal/vault/crypto.go:142-146 | no encoding holds a dot or a bar |
| EncString.DecryptEncString | internal/vault/crypto.go:58-118 | the buffer-filling code decrypts as `Decrypt` says, on every error path as well |
| EncString.EncryptStr | internal/vault/crypto.go:122-148 | the buffer-filling code encrypts as `Encrypt` says, on every error path as well |
| VaultItems.DecryptEncrypted | internal/vault/client.go:92-101 | with the client's keys, what was encrypted is read back |
| VaultItems.ReadsExactly | internal/vault/client.go:92-101 | a client that logged in reads exactly what carries a text under the first half of its key, checked with the second half, and one that did not reads nothing |
| VaultItems.SecretUnauthorized | internal/vault/item.go:88-106 | a read is unauthorized exactly if the server answers 401 to a client that is logged in, and the other errors have their own causes |
| VaultItems.EncryptAll | internal/vault/item.go:274-284 | the loop encrypts the URIs in order and stops at the first failure |
| VaultItems.EncryptedURIs | internal/vault/item.go:274-284 | encrypted URIs are as many as were given and decrypt to them in order |
| VaultItems.UrisContainLoop | internal/vault/item.go:286-293 | the loop answers whether some URI, in lower case, contains the query |
| VaultItems.DecryptURIs | internal/vault/item.go:69-74 | the inner loop keeps, in order, the URIs that decrypt to something |
| VaultItems.Search | internal/vault/item.go:39-84 | not logged in, a 401 and a failed request are told apart; otherwise, unless a record that is read crashes it, the answer is one item, in listing order, for each login whose name decrypts and whose name, username or some URI, lowered, holds the lowered query, and the item carries what those decrypt to |
| VaultItems.FoundExactly | internal/vault/item.go:54-83 | the results are exactly the shown items that the query hits, in listing order, each once |
| VaultItems.FoundByDecryption | internal/vault/item.go:54-83 | the same of the search alone: which positions of the listing are answered and with which fields, in terms of what each text decrypts to |
| VaultItems.FoundUnlessCrash | internal/vault/item.go:54-83 | a search fails only if some text that it reads of a login crashes decryption |
| VaultItems.SearchIsMonotone | internal/vault/item.go:54-83 | if one query contains another, its results are a subsequence of the other's |
| VaultItems.EmptyQueryListsAll | internal/vault/item.go:54-83 | the empty query lists, in order, exactly the login items whose names decrypt, with what their texts decrypt to |
| VaultWrites.Server.Secret | internal/vault/item.go:88-106 | the answer is the password of the item or the error that stood in the way |
| VaultWrites.Server.Add | internal/vault/item.go:139-186 | the server and the answer afterwards are those of `Added`; no failure to encrypt reaches the server |
| VaultWrites.Server.Update | internal/vault/item.go:191-272 | the server and the answer afterwards are those of `Updated`, on every error path as well |
| VaultWrites.Kept | internal/vault/item.go:240-249 | the copying loop sends back the stored URI ciphertexts unchanged |
| VaultWrites.ChangedView | internal/vault/item.go:191-272 | the record an update writes shows the supplied fields and the old ones for the rest |
| VaultWrites.UpdateTouchesOneItem | internal/vault/item.go:191-272 | a successful update leaves other items untouched, and kept password and URI ciphertexts byte for byte |
| VaultWrites.UpdateOverridesExactly | internal/vault/item.go:191-272 | after a successful update the view is the old one overridden by exactly the supplied fields if and only if the name and username that were not supplied could be decrypted |
| VaultWrites.UpdateSucceeds | internal/vault/item.go:191-272 | with randomness and an answering server an update goes through if and only if the client is logged in and the item is a login whose kept fields can be read without a crash, be it with an error |
| VaultWrites.NameIsLost | internal/vault/item.go:209-213 | an input on which an update is no override: a stored name that does not decrypt is written empty by a successful update of the password alone |
| VaultWrites.UpdateThenRead | internal/vault/item.go:88-272 | after a successful update the item is a login with its id kept, shown with the supplied fields and what the others were read as, and its password is the one supplied or the one it had |
| VaultWrites.UpdateThenSearch | internal/vault/item.go:39-272 | a search after an update finds the item with its new metadata exactly when the query is empty or occurs in it |
| VaultWrites.UpdateUnauthorized | internal/vault/item.go:191-272 | an update is unauthorized exactly if the server answers 401 to its read or to its write |
| VaultWrites.AddSucceeds | internal/vault/item.go:139-186 | with randomness an add goes through exactly if the client is logged in and the server takes it, and is unauthorized exactly on a 401 |
| VaultWrites.FailedWriteChangesNothing | internal/vault/item.go:139-272 | on a server that takes what it is asked to write, an add or an update that fails changes nothing |
| VaultWrites.AddThenRead | internal/vault/item.go:88-186 | an added item shows the name, username and non-empty URIs given, its secret is the password given, and no other item changes |
| VaultWrites.AddThenSearch | internal/vault/item.go:39-186 | a search after an add finds the new item exactly when the query is empty or occurs in its lowered name, username or a non-empty URI |
| Clipboard.Board.SetWithAutoClear | internal/clipboard/clipboard.go:75-96 | the secret is on the clipboard and what was there is remembered, or there is an error and nothing changed; an unreadable clipboard counts as empty |
| Clipboard.Board.Expire | internal/clipboard/clipboard.go:98-117 | a window that ends puts back what it remembers unless it was canceled or the user replaced the secret |
| Clipboard.Replay | internal/clipboard/clipboard.go:75-118 | the steps of a run are the methods of the class with reads and writes that succeed |
| Clipboard.SecretLeaves | internal/clipboard/clipboard.go:75-118 | any number of overlapping copies of one secret, any other user writes and any expiry order end with the secret off the clipboard once no window is open |
| Clipboard.RunWillLeave | internal/clipboard/clipboard.go:75-118 | while the secret shows, some open window remembers something else |
| Clipboard.UserTextStays | internal/clipboard/clipboard.go:109-112 | what the user wrote, if no open window's secret, survives every window that ends |
| Clipboard.NestedRestores | internal/clipboard/clipboard.go:83-117 | windows that end newest first, with no user write, restore the original content, whatever the secrets |
| Clipboard.RestoredExactly | internal/clipboard/clipboard.go:83-117 | for distinct secrets the original content is restored if and only if the windows ended newest first |
| Clipboard.BottomExactly | internal/clipboard/clipboard.go:83-117 | at every moment, what ending the open windows newest first would leave is the original content if and only if windows have so far ended newest first |
| Clipboard.LeftBehindExactly | internal/clipboard/clipboard.go:83-117 | for distinct secrets one of them is left on the clipboard after the last window if and only if the windows did not end newest first |
| Clipboard.CrossedWindows | internal/clipboard/clipboard.go:83-117 | copying A then B and ending the older window first leaves A on the clipboard |
| Index.Index.Load | internal/index/index.go:160-173 | a missing file is an empty index; an unreadable or malformed one is an error |
| Index.Index.Add | internal/index/index.go:98-116 | a tracked entry keeps its first timestamp and needs no write; a new one is appended; a failure changes nothing |
| Index.Index.Remove | internal/index/index.go:121-137 | exactly the entries of that source and name go, or nothing does |
| Index.Index.List | internal/index/index.go:140-154 | the listing holds the same entries, sorted |
| Index.FilterInPlace | internal/index/index.go:126-134 | filtering into the front of the same buffer loses and repeats nothing |
| Index.RemoveExactly | internal/index/index.go:121-137 | what is left is exactly what has another key |
| Index.RemoveKeepsOrder | internal/index/index.go:121-137 | what is left is a subsequence |
| Index.IndexIsMap | internal/index/index.go:98-137 | from an empty file, any adds and removes keep keys unique and the file equal to a map from source and name to the first timestamp |
| Index.KeepsFirstTime | internal/index/index.go:98-137 | an entry is in the file exactly when its key was added, at its time, for the first time since its last removal |
| Index.ListingIsUnique | internal/index/index.go:140-154 | the listing is the one strictly sorted listing of the map, so an unstable sort cannot show |
| Index.SortedIsUnique | internal/index/index.go:146-152 | two strictly sorted listings of the same entries are the same |
| Index.LessExactly | internal/index/index.go:147-152 | entries are compared by source, and by name within a source |
| Index.TextLessExactly | internal/index/index.go:147-152 | one text comes before another if, behind what they share, it ends or goes on with the smaller character |
| Index.KeyOrder | internal/index/index.go:146-152 | the comparison by source then name is a strict order in which only equal keys are incomparable |
| Index.KeyTransitive | internal/index/index.go:146-152 | the comparison is transitive |
| Stash.Stash.HandleSave | internal/mcp/server.go:643-684 | keychain, index and reply afterwards are those of the save step: an empty clipboard, a bad name and a failing keychain are errors, a failing index is not |
| Stash.Stash.HandleDelete | internal/mcp/server.go:690-721 | keychain, index and reply afterwards are those of the delete step: a name not found is still removed from the index |
| Stash.Stash.HandleList | internal/mcp/server.go:723-742 | the listing is the index's, sorted |
| Stash.RepliesExactly | internal/mcp/server.go:643-721 | what a save and a delete answer, by name, clipboard, keychain and what is stored |
| Stash.KeychainHolds | internal/mcp/server.go:643-721 | in every run the keychain holds a secret under a name if and only if the last call that stored or deleted that name stored it, with that secret on the clipboard |
| Stash.EntriesFollow | internal/mcp/server.go:643-721 | the index of a run is a run of the index with an add, at its time, for each stored save and a removal for each delete |
| Stash.Repairs | internal/mcp/server.go:643-721 | a stored save, a delete or a not-found delete whose index operation succeeds puts that name in step, whatever the drift before |
| Stash.LeavesAlone | internal/mcp/server.go:643-721 | no handler changes whether another name is in step |
| Stash.DriftIsConfined | internal/mcp/server.go:643-721 | a name is out of step only if the last index operation its handlers made for it failed |
| Stash.InStepWhileIndexWorks | internal/mcp/server.go:643-721 | while index operations succeed, the index's keychain names are exactly the keychain's |

## Left out

- HTTP, JSON and YAML parsing, the stdio loop, version negotiation, tool schemas and response texts: library plumbing. A bundle argument is absent, garbled or parsed; a registry file is an error or a parsed map.
- AES (FIPS 197), HMAC (RFC 2104), PBKDF2, HKDF and HPKE (RFC 9180): function parameters with the inverse laws only; nothing is said of secrecy, forgery or collisions. The login and key stretching of the vault client are left out.
- `credproto.VerifyBundle` and `MarshalInfo` are in another repository and are not part of this model: verification is a yes or no, the encoding of the binding any function, so nothing says that two bindings are encoded differently.
- Biometric prompt, dialog and OS keychain: a yes or no, a partial map, and inputs.
- Random bytes and their hexadecimal form: a token is any string, or a failure; tokens may repeat. Guessing is not modelled.
- Sorting: the code calls a library sort; the model sorts by insertion, and `Index.ListingIsUnique` shows that the choice cannot show.
- Record fields outside name, username, password and URIs (notes, TOTP, custom fields, favourite, URI match): the code writes them as null, empty or false.
- Several processes over one index file, and keychain edits made outside the handlers.
- Lower-casing and Unicode: lower-casing is any function, except that `VaultItems.EmptyQueryListsAll` needs it to keep the empty text; strings are sequences of characters and vault texts sequences of bytes.
- Integer overflow of durations and the size of Go's `int`: times are unbounded integers, and the type prefix is read as an unbounded integer, which decides "is it 2" alike.
- Protocol.Server.HandleToolCall: handles calls one at a time, as the stdio loop does, and a stash tool or an unknown one only passes the gate here; what the stash tools do is in `Stash` and `Clipboard`, and the interleavings of the token store and of registry loading in their own modules.
- Order of log lines and the text of error messages.
- `wait` closures canceled with the server: they leave the clipboard as it is (`Clipboard.Board.Expire`) and are not part of the clipboard runs.
- Clipboard.SecretLeaves: assumes reads and writes that succeed and a window's read-then-write as one step, like the other run theorems of that module.
- Clipboard.RestoredExactly: assumes secrets that differ from one another and from the original content, since equal ones can restore by luck; `Clipboard.NestedRestores` has no such assumption.
- Sessions.UnlocksLast: assumes an absolute limit that is not negative; the bound is false of a single unlock otherwise.
