# go-adcore, verified

A Dafny model of the parts of go-adcore whose correctness is not obvious from one function at a time, with
proofs about them. `dafny verify dfyconfig.toml` checks everything.

| Part of go-adcore | Modules |
|---|---|
| Distinguished names (`dn.go`) | `Grammar` (values, printed form, recursive-descent reference), `Spelling` (the accepted strings as a grammar with its characters written out), `WhiteSpace` (what trimming takes off), `RoundTrip`, `Automaton` (the one-pass `ParseDN`), `Printer`, `Compare`, `Components` |
| Search scope (`adcorefake/fake.go`) | `Scope` |
| LDAP filters (`filter.go`) | `Filter` |
| Retry schedule (`retry.go`) | `Retry` |
| Access-control entry identity (`acl.go`) | `AceKey` |
| Keyed mutex (`locks.go`) | `LockProtocol` (interleavings of its statements), `Goroutines` (who executes them, and when they deadlock), `KeyedMutexObject` (the object, statement by statement) |
| In-memory directory (`adcorefake`) | `Directory` (contents and invariant), `Moves` (a subtree renamed while its map is ranged over), `Orbits` (when such a move loses nothing), `LetterCase` and `StoredNames` (the text of stored names against what they mean), `Acl`, `Membership`, `Operations`, `History` (runs of operations), `FakeDirectory` (the store as an object) |

How the source is rendered:

- Strings are sequences of bytes, with no assumption that they are valid UTF-8. `strings.TrimSpace` is modelled
  exactly, with the UTF-8 encodings of every white-space rune.
- `strings.EqualFold` in `dn.go` is equality under an arbitrary folding function, and `strings.ToLower` in
  `acl.go` an arbitrary function, so those results hold for Unicode case tables too. The in-memory directory,
  which slices raw bytes after a lower-cased match, uses ASCII lower-casing.
- An error is `None`, or an error kind where the directory's callers tell kinds apart.
- A `range` over a map that the loop changes is a relation: it must produce every entry that stays, it may
  produce or skip an entry created meanwhile, and it does not produce a deleted one. The order it takes is the
  parameter `order`, and every result about a move is about every legal order. A `range` over a map that the loop
  does not change takes its keys in an arbitrary order.
- The keyed mutex is a transition system in which every statement of `Lock` and of the release function is one
  step of one actor, a single call, and actors interleave arbitrarily. A goroutine owns the calls it makes; while one
  of them is inside `Lock` or inside its release function, it makes no other call and releases none.

What the proofs found, stated in the rows below as exact conditions:

- The store compares names by their text, and it stores a new object under its type, its name and its container's text
  as given. A stored name is found below a unit, by search, `childrenLocked`, `Delete` and `moveLocked` alike, exactly
  when its container's text is the unit's own or ends in it after a comma, up to letter case
  (`StoredNames.BelowChild`). What it should go by is what the container names (`StoredNames.UnderChild`). So the
  store finds everything below a unit if and only if every stored container that names the unit or something below
  it ends in the unit's own text (`History.DeleteIsSafeIff`).
- It misses children: the unit "OU=x,DC=c" has the child "CN=u,OU=x, DC=c", with a blank after a comma, which is in no
  scope of the unit and is not moved with it; deleting the unit is allowed and leaves the child behind
  (`StoredNames.RespelledChildIsMissed`, `StoredNames.DeleteCanOrphan`). Exactly when a delete leaves an orphan is
  `History.DeleteLeavesOrphanIff`.
- It counts strangers: what lies in the container "CN=x\,OU=b", a single RDN, counts as below "OU=b"
  (`StoredNames.EscapedCommaIsCounted`).
- One-level search scope finds a child only if, besides, its own name has no comma (`StoredNames.OneLevelFindsChildren`,
  on names in printed form `Scope.OneLevelScope`; `Scope.CommaChildIsMissed`).
- A blank container passes validation, and the object created in it has a name that cannot be read, so a second
  `Create` of it is not refused and replaces the first (`Components.NoReparenting`,
  `Operations.CreateReplacesNothing`, `History.BlankContainerExample`).
- A move can lose objects, and `Update` checks nothing that would prevent it. Every time the loop of `moveLocked`
  runs on an object it takes it one step along its orbit, the names it gets by replacing the old name's suffix again
  and again. Whatever is stored, no order of the range loses an object if and only if the new name is not another
  object's and no two orbits meet (`Orbits.MoveConserves`, `Operations.UpdateConserves`,
  `History.CarefulIsExact`). For example, the new name is taken (`Moves.MoveOntoOccupiedLoses`), two names
  below the old one differ only in its letter case (`Moves.FreeMoveConserves`), or an object without a container is
  stored below the new name, where a moved one must go (`Orbits.OrphanIsLost`); there are other ways. The GUID of the moved object
  itself survives always (`Operations.UpdateKeepsValid`).
- The result of a move that loses nothing depends on the order of the range exactly when some object can go a second
  step (`Orbits.OrderIndependentIff`). The loop of any move has no bound exactly when the new name is at or below the
  old one, ignoring case, and something other than the new name itself is stored below the old one
  (`Moves.MoveTerminatesIff`). Both happen when "OU=A,DC=c", with "CN=x" in it, moves to "OU=B,OU=A,DC=c"
  (`Orbits.NestedMoveExample`).
- Goroutines that hold one key while they ask for another can deadlock; all calls can be finished if and only if no
  goroutines wait on each other in a circle (`Goroutines.FinishableIffNoDeadlock`, `Goroutines.OppositeOrdersDeadlock`).
- The backoff schedule can collapse: after a first delay of 146 years the third is 4 ns. 64 shifts decide
  whether a configuration is free of this (`Retry.DelayCanCollapse`, `Retry.IdealIffNeverWrapsInside`); one with
  default backoffs is (`Retry.WithDefaults`, `Retry.DelayIsIdeal`).
- `CanonicalACEKey` cannot tell an entry without rights from one with a single empty right name
  (`AceKey.KeyIsComplete`).
- The empty DN is an ancestor of every non-empty one, although `Parent` never reaches it
  (`Compare.AncestorIsIteratedParent`).
- `childrenLocked` counts what it finds at any depth, while its comment says direct children. The two are the same set
  if and only if every stored container ends in the unit's text just when it names the unit, names equal to the unit's
  aside (`StoredNames.CountsChildrenIff`); on names in printed form, the same number if and only if no stored name lies deeper
  (`Operations.ChildrenCountIff`). A unit without children but with a grandchild cannot be deleted
  (`Operations.GrandchildBlocksDelete`).
- `editMembers` keeps what it did before the first member that does not resolve. A failing call changes nothing if and
  only if every member before that one is already in, or already out (`Membership.EditChangesNothingIff`,
  `Membership.FailedEditStays`).

## Model

| member | source | states |
|---|---|---|
| Automaton.ParseDN | dn.go:53-162 | On every byte string the one-pass loop over its buffers and flags accepts exactly what the recursive-descent reference for its slice of section 3 of RFC 4514 accepts, and returns the same DN |
| Automaton.LexedStep | dn.go:104-154 | One iteration of the switch keeps the meaning of the buffers (type text before '=', decoded tokens less leading blanks, count of trailing blanks, pending escape), or it fails and the reference fails on the whole attribute |
| Automaton.BadEscape | dn.go:120-125 | An escape that is neither two hex digits nor an escapable character, or that the string cuts short, is an error of the reference as well |
| Automaton.BerValue | dn.go:148-149 | An unescaped '#' in front of a value is rejected exactly where the reference sees a BER value |
| Automaton.AttrRead | dn.go:79-93 | What ends an attribute, at an unescaped separator or at the end, is exactly the reference's attribute, or an error of the reference without '=' or with a blank type; trailWS is never longer than the value buffer |
| Spelling.ParseIffSpells | dn.go:53-162 | ParseDN accepts exactly the spellings of the grammar, whose characters are written out, and returns what they spell: types trimmed; values of bare bytes, escaped characters and hexadecimal pairs, spaces around them dropped, no bare leading '#'; ',' or ';' between RDNs and '+' within |
| Spelling.BadPairIsRejected | dn.go:120-127 | After any escaped value, a backslash before anything but a hexadecimal digit or one of \\ " + , ; < > = space # makes the whole string an error, whatever follows |
| Spelling.GoodPairIsRead | dn.go:123-127 | A backslash before one of the ten stands for exactly that character, in the middle of any value |
| Spelling.DigitIsHex | dn.go:34-36 | The hexadecimal digits are 0-9, a-f and A-F, each with its place in that list as its value |
| WhiteSpace.SpaceLenIs | dn.go:55 | White space is exactly where the UTF-8 encoding of one of the 25 white-space code points stands |
| WhiteSpace.TrimIs | dn.go:83 | Trimming takes only white space off the two ends and leaves none there |
| RoundTrip.ReadPrintedAttr | dn.go:193-212 | A printed attribute with arbitrary value bytes is read back as itself whatever separator follows |
| RoundTrip.ReadPrintedRDN | dn.go:166-182 | A printed multi-valued RDN is read back as itself in front of whatever the rest of the string holds |
| RoundTrip.ParsePrint | dn.go:166-212 | ParseDN of String returns the DN if and only if its RDNs are non-empty and its types are non-empty, trimmed and free of '='; values are arbitrary |
| RoundTrip.ParsedIsWellFormed | dn.go:53-162 | Every accepted string yields a DN of that form, and the empty DN exactly when the string is blank |
| RoundTrip.NormalizeIdempotent | dn.go:53-182 | Printing a parsed string keeps its DN, and the result is its own normal form |
| RoundTrip.PrintInjective | dn.go:164-182 | Two different readable DNs never print alike |
| Printer.EscapeValue | dn.go:193-212 | The loop over the value writes exactly the escaped text the round trip is proved for |
| Spelling.EscapesExactly | dn.go:193-212 | Byte by byte: NUL is written as \00; , + " \\ < > ; = everywhere, a space at either end and a leading '#' are written with a backslash; every other byte is written as itself; and what is written spells the value |
| Printer.String | dn.go:166-182 | The nested loops write exactly the printed form the round trip is proved for |
| Compare.RdnEqualFold | dn.go:229-251 | The greedy matcher with its used flags says equal if and only if the multisets of folded pairs are equal: committing to the first match misses nothing |
| Compare.EqualFold | dn.go:217-227 | True if and only if the other DN is not nil and agrees RDN by RDN up to case and attribute order |
| Compare.AncestorOfFold | dn.go:254-265 | True if and only if the other DN is longer and its tail equals this one |
| Compare.SameDNIsEquivalence | dn.go:217-251 | EqualFold is reflexive, symmetric and transitive for every folding |
| Compare.AncestorIsStrictOrder | dn.go:253-265 | The ancestor relation is a strict partial order and respects EqualFold on both sides |
| Compare.UpDrops | dn.go:268-273 | k applications of Parent drop k RDNs, and are nil once none would be left |
| Compare.AncestorIsIteratedParent | dn.go:253-273 | A non-empty DN is an ancestor exactly when one or more applications of Parent reach a DN equal to it; the empty DN is the stated exception |
| Components.SplitDN | dn.go:308-318 | Fails exactly where ParseDN does, and returns the printed form of each RDN in order |
| Components.ParentOf | dn.go:277-287 | The string result re-reads as exactly the RDNs after the first, and is "" when there are fewer than two |
| Components.ContainerOf | dn.go:322-332 | Succeeds exactly on two or more RDNs; the result is the join of the tail components and re-reads as exactly the tail |
| Components.EqualFoldDN | dn.go:292-302 | Fails exactly when either string is unreadable, else decides equality of the two DNs |
| Components.ComponentsReassemble | dn.go:304-318 | The components of an accepted string join to its normal form and each re-reads as its own one RDN |
| Components.NormalFormIsEqual | dn.go:289-302 | A string names the same object as its normal form under every folding |
| Components.ReadChild | dn.go:184-188 | EscapeValue'd name, comma, parent: reads as one RDN with exactly those name bytes in front of what the parent reads as |
| Components.NoReparenting | adcorefake/ou.go:26 | For every name and every non-blank readable parent the child's Parent is the parent, which is its strict ancestor; below a blank parent the child is unreadable |
| Scope.CommaNotInside | adcorefake/fake.go:201-216 | The comma that a suffix match finds can never be one inside a printed RDN, since that comma and the '=' after it would have to be escaped |
| Scope.SuffixIffTail | adcorefake/fake.go:214 | On canonical text the suffix test holds exactly when the base is a proper tail |
| Scope.BelowIsAncestor | adcorefake/fake.go:172 | The lower-cased suffix test is the structural ancestor relation |
| Scope.SubtreeScope | adcorefake/fake.go:212-215 | Subtree scope holds exactly when the base equals the object or is its ancestor |
| Scope.OneLevelScope | adcorefake/fake.go:206-211 | One-level scope holds exactly when the base equals the object's parent and the object's own value has no comma |
| Scope.BaseScope | adcorefake/fake.go:204-205 | Base scope holds exactly when the object's name equals the base |
| Scope.ScopesNest | adcorefake/fake.go:201-216 | On any two texts base and one-level scope exclude each other and lie within subtree scope, and base scope is equality of what the texts name |
| Scope.CommaChildIsMissed | adcorefake/fake.go:211 | A concrete child in subtree scope of its parent that one-level scope misses |
| LetterCase.AlikeNames | adcorefake/fake.go:139-142 | Texts that differ in letter case only are both unreadable, or name the same object |
| LetterCase.TwinsAreOneName | adcorefake/ou.go:26-31 | Readable keys that a move sends to one key because of letter case are one name, so Create never makes the second |
| StoredNames.BelowChild | adcorefake/fake.go:172 | A stored name passes the suffix test exactly when its container's text is the base's or passes it, for any name bytes and any container text |
| StoredNames.UnderChild | adcorefake/fake.go:165 | A stored name is a child exactly when its container names the base, and below it exactly when its container does or is |
| StoredNames.BaseOfChild | adcorefake/fake.go:204-205 | Base scope holds of a stored name exactly when its name in its container is what the base names, for any name bytes and any container text |
| StoredNames.SubtreeOfChild | adcorefake/fake.go:212-215 | Subtree scope on stored names goes by the container's text |
| StoredNames.OneLevelFindsChildren | adcorefake/fake.go:206-211 | One-level scope on stored names finds only children, and of those exactly the ones with the base's own text as container and no comma in the name |
| StoredNames.MovedChild | adcorefake/fake.go:191 | A move replaces the container's text of a stored name below the old one, and keeps type and name |
| StoredNames.UpdateKeepsMade | adcorefake/ou.go:105-112 | An update keeps every stored name of the form type, name, container, whatever the order |
| StoredNames.FindsAllBelowIff | adcorefake/fake.go:165-177 | The store finds everything below a unit if and only if every stored container that names it or something below it ends in its text; then no allowed delete leaves an orphan |
| StoredNames.LeavesOrphanIff | adcorefake/ou.go:128-135 | An allowed delete leaves an orphan if and only if some stored container names the unit or something below it and none ends in the unit's text, names equal to the unit's aside |
| StoredNames.CountsChildrenIff | adcorefake/fake.go:165-177 | childrenLocked counts exactly the direct children if and only if stored containers end in the unit's text just when they name it, names equal to the unit's aside |
| StoredNames.RespelledChildIsMissed | adcorefake/ou.go:26 | For any unit and child, one blank after a comma of the container makes the child invisible: to childrenLocked, to both scopes and to moves |
| StoredNames.DeleteCanOrphan | adcorefake/ou.go:128-135 | Two concrete names for which the unit may be deleted while its child stays |
| StoredNames.EscapedCommaIsCounted | adcorefake/fake.go:172 | A concrete container whose objects count as below a unit that they are not below |
| StoredNames.MovedName | adcorefake/fake.go:179-191 | On printed names the suffix replaced is the moved object's name RDN by RDN, and the result lies below the new name |
| StoredNames.MoveOnNames | adcorefake/fake.go:179-198 | For every order of a lossless, settling move on printed names: the object has the new name, exactly its descendants are carried below it, every other object keeps its name |
| Filter.EscapeFilter | filter.go:11-34 | The second pass fills the buffer sized by the first exactly, never outside it, and the result decodes to the input |
| Filter.EncodeLossless | filter.go:3-34 | Decoding per section 3 of RFC 4515 undoes escaping, each escape costs two bytes, and outside escapes only permitted ASCII is left |
| Filter.EncodeConcat | filter.go:11-34 | Escaping distributes over concatenation |
| Filter.EncodesExactly | filter.go:3-34 | Byte by byte: ( ) * \\ NUL and every byte from 80 hexadecimal on become a backslash and two lower-case digits, every other byte is itself |
| Filter.And | filter.go:46-59 | Zero, one, and two or more terms give the empty filter, the term itself and the conjunction the reader is proved for |
| Filter.TextBalanced | filter.go:39-59 | A filter built by Equal and And leaves the nesting depth where it was, in any context, so its values cannot open or close a parenthesis |
| Filter.FilterText | filter.go:39-59 | The text of two assertions under one conjunction, written out |
| Filter.FilterRoundTrip | filter.go:36-59 | A filter nested to any depth is balanced, reads back as exactly its terms, and is the text of no other filter |
| Retry.WithDefaults | retry.go:20-34 | Every field of the result is usable, usable fields are kept, and with both backoffs defaulted the product of the limits is below 2^63 |
| Retry.BackoffDelay | retry.go:42-48 | The wrapping shift and the cap give a delay in (0, MaxBackoff], and the intended one whenever InitialBackoff*MaxBackoff is below 2^63 |
| Retry.WrapIsMultiple | retry.go:42 | A 64-bit shift that overflows to a positive value is at least the power of two it multiplied by, and is zero from 64 on |
| Retry.DelayIsIdeal | retry.go:41-48 | Below the product bound the delay is min(InitialBackoff*2^(attempt-1), MaxBackoff) for every attempt |
| Retry.DelayNeverFalls | retry.go:38-48 | Below the product bound a later attempt never waits less |
| Retry.IdealIffNeverWrapsInside | retry.go:42-48 | A configuration backs off as intended on every attempt if and only if none of its first 64 shifts overflows to a value strictly between 0 and the cap |
| Retry.DelayCanCollapse | retry.go:42-48 | A concrete configuration whose third delay is 4 ns after a first of 146 years |
| Retry.JitterStaysInBand | retry.go:49-52 | Over the reals the jittered delay lies within base*(1±Jitter) and is never negative |
| Retry.JitterCoversBand | retry.go:49-52 | Over the reals every delay of the band, its upper end aside, comes from some draw in [0,1) |
| AceKey.SortStrings | acl.go:87 | The rights are sorted in place: the array becomes the sorted arrangement of what it held |
| AceKey.SortSorts | acl.go:87 | That arrangement is in byte order and holds the same strings as often |
| AceKey.SortIsCanonical | acl.go:87 | Two lists sort alike exactly when they are equal as multisets |
| AceKey.LexLessIff | acl.go:87 | Byte order is decided at the first difference: there the smaller string ends or has the smaller byte |
| AceKey.KeyText | acl.go:89-97 | The key is the six lower-cased fields in order, separated by the byte 1f, the sorted rights within by the byte 1e |
| AceKey.CanonicalACEKey | acl.go:82-97 | The method returns the key that KeyIsComplete is about |
| AceKey.SplitJoin | acl.go:91-96 | Splitting on the separator undoes joining separator-free parts |
| AceKey.JoinInjective | acl.go:75-81 | Joined lists of separator-free parts differ, but for the empty list and the list of one empty part |
| AceKey.KeyIsComplete | acl.go:75-97 | For fields without the separators two keys are equal if and only if the lower-cased scalar fields agree and the lower-cased rights agree as multisets, or both have no named right |
| AceKey.LowerKeepsLack | acl.go:75-81 | ASCII lower-casing brings in no separator |
| LockProtocol.StepKeepsInv | locks.go:24-48 | Every statement of every actor keeps the invariant: both mutexes exclusive, entries in the map while attached, refs equal to the number of users, nothing left behind |
| LockProtocol.RunKeepsInv | locks.go:24-48 | The invariant holds in every state of every interleaving of calls, statements and releases |
| LockProtocol.MutualExclusion | locks.go:23-48 | At most one actor holds a key, and all actors registered on a key share the one entry in the map |
| LockProtocol.RefsCountUsers | locks.go:31-41 | refs is the number of actors between their refs++ and their refs-- |
| LockProtocol.NewcomerSharesEntry | locks.go:39-41 | A newcomer that arrives between e.mu.Unlock and refs-- gets the very entry that is being left |
| LockProtocol.DeletedEntryIsUnused | locks.go:42-44 | Deleting never takes from the map a key that another actor is registered on |
| LockProtocol.NothingLeaks | locks.go:50-55 | The map holds exactly the keys with a registered actor, and is empty once every call is released |
| LockProtocol.WaitsOnlyForOwnKey | locks.go:23-34 | No actor unlocks a free mutex, and one that waits does so for the map mutex or for the holder of its own key |
| LockProtocol.ScheduleIsBounded | locks.go:24-48 | However the actors are scheduled without new calls, they execute as many statements as the total left falls by, so every schedule comes to an end |
| LockProtocol.NeverHoldsAgain | locks.go:36-46 | Once a call has unlocked its entry it never holds its key again, in any run |
| LockProtocol.ReleaseTwice | locks.go:36-46 | In every run every call of a release function but the first changes nothing, whoever holds the key by then |
| Goroutines.DeadlockStays | locks.go:23-48 | Goroutines that wait on each other in a circle do so for ever, whatever the others do |
| Goroutines.NoNewDeadlock | locks.go:23-48 | Without new calls no circle of waiting goroutines comes about |
| Goroutines.StuckIffDeadlocked | locks.go:23-48 | Where no goroutine can execute a statement, some call is unreleased if and only if goroutines wait on each other in a circle |
| Goroutines.Drains | locks.go:24-55 | From every reachable state without such a circle some schedule releases every call in exactly the statements left and ends with an empty map |
| Goroutines.FinishableIffNoDeadlock | locks.go:24-55 | All calls made can be finished without new ones if and only if there is no such circle |
| Goroutines.OrderPreventsDeadlock | locks.go:5-7 | Goroutines that ask only for keys above those they hold, in any fixed order, never deadlock |
| Goroutines.OneKeyPreventsDeadlock | locks.go:5-7 | Goroutines that take one key at a time never deadlock |
| Goroutines.OppositeOrdersDeadlock | locks.go:24-34 | A run in which one goroutine takes "A" then "B" and another "B" then "A", and which ends deadlocked |
| KeyedMutexObject.KeyedMutex.constructor | locks.go:19-21 | A new object is the initial state of the protocol |
| KeyedMutexObject.KeyedMutex.LockMap | locks.go:25 | The statement on the real fields is the protocol's step |
| KeyedMutexObject.KeyedMutex.Find | locks.go:26-30 | Looking the key up, and storing a new entry when it is absent, is the protocol's step |
| KeyedMutexObject.KeyedMutex.Register | locks.go:31 | Counting in on the shared entry is the protocol's step |
| KeyedMutexObject.KeyedMutex.UnlockMap | locks.go:32 | Giving the map mutex back is the protocol's step |
| KeyedMutexObject.KeyedMutex.LockEntry | locks.go:34 | Taking the entry's mutex is the protocol's step |
| KeyedMutexObject.KeyedMutex.UnlockEntry | locks.go:36-39 | Calling release is the protocol's release: it unlocks the entry the first time and does nothing later |
| KeyedMutexObject.KeyedMutex.RelockMap | locks.go:40 | Taking the map mutex for the release is the protocol's step |
| KeyedMutexObject.KeyedMutex.Deregister | locks.go:41 | Counting out on the shared entry is the protocol's step |
| KeyedMutexObject.KeyedMutex.Forget | locks.go:42-44 | Removing the entry at count zero is the protocol's step |
| KeyedMutexObject.KeyedMutex.Finish | locks.go:45 | Giving the map mutex back at the end is the protocol's step |
| KeyedMutexObject.KeyedMutex.Size | locks.go:50-55 | The number of keys in the protocol's map |
| KeyedMutexObject.KeyedMutex.HoldsAlone | locks.go:23-48 | On the object itself: two holders of one key are one, and it holds the entry stored under the key |
| KeyedMutexObject.KeyedMutex.ReleasedIsEmpty | locks.go:50-55 | On the object itself: with every call released the map is empty |
| Directory.GuidInjective | adcorefake/fake.go:91-94 | Different counter values give different GUIDs, also past eight hex digits |
| Directory.NextGuidIsNew | adcorefake/fake.go:91-94 | The next GUID is none of those issued so far |
| Directory.GuidText | adcorefake/fake.go:91-94 | A GUID is the counter in hexadecimal, eight digits of it up to ffffffff, and the fixed rest |
| Directory.FirstGuids | adcorefake/fake.go:91-94 | The first 255 GUIDs digit by digit, in lower case |
| Moves.RunKeepsValid | adcorefake/fake.go:181-198 | The store invariant survives a move for every order of its range, also onto occupied names; only the model of the moved object is left for the caller |
| Moves.MovedIsSettled | adcorefake/fake.go:187-194 | On a free move a moved key is new and the loop would not move it again |
| Moves.MoveResult | adcorefake/fake.go:179-198 | On a free move, for every order: keys at or below the old name have that suffix replaced, other entries are untouched, and no other key appears |
| Moves.FreeMoveConserves | adcorefake/fake.go:179-198 | A free move loses an object, in every order, exactly when two keys below the old name differ only in its letter case; otherwise every object is at its renamed key |
| Moves.MoveOrderIndependent | adcorefake/fake.go:187-197 | Then every order of the range gives the same directory |
| Moves.MoveTerminatesIff | adcorefake/fake.go:181-198 | Whatever is stored, the loop is bounded for all orders if and only if the new name is not at or below the old one or no other key is below the old one |
| Moves.SomeOrderCompletes | adcorefake/fake.go:187 | Every range has an order it can complete, which produces only entries that it must |
| Moves.MoveOntoOccupiedLoses | adcorefake/ou.go:105-108 | A move never makes an object, and a move onto another object's name always loses one |
| Orbits.MoveCarries | adcorefake/fake.go:179-198 | When the new name is not another object's and no orbits meet, every object is kept, with everything but its name, on its own orbit, at every point of every order |
| Orbits.MoveConserves | adcorefake/fake.go:179-198 | Whatever is stored and whatever the names, no order loses an object if and only if the new name is not another object's and no two orbits meet |
| Orbits.SettledResult | adcorefake/fake.go:179-198 | The exact result of every order of a lossless move in which no object can go a second step, case-only renames included |
| Orbits.OrderIndependentIff | adcorefake/fake.go:187-197 | A lossless move has one result for all orders if and only if no object can go a second step |
| Orbits.FreeMoveLossless | adcorefake/fake.go:181-198 | On a move to a free place no object goes a second step, and orbits meet exactly at names that differ in letter case only |
| Orbits.OntoStoredLoses | adcorefake/fake.go:191-194 | Moving an object below the old name onto one that stays loses an object in every order |
| Orbits.OrphanIsLost | adcorefake/fake.go:187-197 | Three concrete names: the new name is free, none differ in letter case only, and every order loses an object |
| Orbits.NestedMoveExample | adcorefake/fake.go:181-198 | A concrete lossless move whose loop has no bound and whose result depends on the order |
| Acl.GrantCovers | adcorefake/acl.go:42-56 | Granting keeps the old list as a prefix, covers exactly the old and the requested keys, and keeps keys distinct and entries explicit |
| Acl.GrantAppends | adcorefake/acl.go:46-56 | Entry by entry: a requested entry whose key is neither there nor requested before is appended at the end with every field but the inherited flag, which is cleared; any other is passed over |
| Acl.GrantIdempotent | adcorefake/acl.go:23-26 | Granting the same list again changes nothing |
| Acl.RevokeRemovesExactly | adcorefake/acl.go:79-90 | What stays is exactly the entries that are inherited or whose key is not listed, and a list without them is untouched |
| Acl.WithoutConcat | adcorefake/acl.go:83-89 | Revoking works entry by entry, so the order of the rest is kept |
| Acl.RevokeKeepsValid | adcorefake/acl.go:79-90 | Revoking keeps keys distinct and entries explicit |
| Acl.RevokeUndoesGrant | adcorefake/acl.go:23-92 | Revoking what was granted leaves what revoking alone would, and the old list when it held none of the keys |
| Membership.ClosedHoldsReachable | adcorefake/group.go:166-198 | A set of GUIDs that is closed under live groups' members and has the direct members has everything reachable through live groups |
| Membership.WalkIsComplete | adcorefake/group.go:177-199 | A walk that marked only reachable GUIDs and left nothing open has found exactly the recursive members |
| Membership.MembersSay | adcorefake/group.go:147-150 | What a returned member says: GUID, name and class of one live object that is reachable, or listed |
| Membership.EditSays | adcorefake/group.go:228-238 | What editMembers did: exactly the resolved GUIDs are in, or out, of this one group, and nothing else changed |
| Membership.EditChangesNothingIff | adcorefake/group.go:228-238 | What editMembers did before it stopped changes nothing if and only if every member it resolved is already in, or already out |
| Membership.FailedEditStays | adcorefake/group.go:228-232 | A concrete call that fails and leaves its first member in the group |
| Operations.CreateKeepsValid | adcorefake/ou.go:26-41 | Creating keeps the store invariant, with the next GUID |
| Operations.CreateReplacesNothing | adcorefake/ou.go:26-31 | When no stored name equals the new one its key is free, unless the container is blank; then no directory ever counts the name as taken |
| Operations.CreatedAsAsked | adcorefake/ou.go:26-40 | The created name reads as exactly the given name bytes directly under the container, and the fields are those of the spec |
| Operations.UpdateKeepsValid | adcorefake/ou.go:78-113 | For every order, also onto occupied names: the invariant is kept, the object keeps GUID, class, members and access list, and its model is exactly the spec applied |
| Operations.UpdateMeetsSpec | adcorefake/ou.go:99-112 | For every order: the object then has the name of the spec and a container that names the same; a new name or container takes it to the name they make, with the container's text; with neither it stays where it is and no other object changes; description and protection are the spec's where it gives them |
| Operations.UpdateResultMeetsSpec | adcorefake/ou.go:78-113 | The same of the model that Update returns, whichever object that answers to the identity it found |
| Operations.UpdateCarriesOthers | adcorefake/ou.go:105-112 | For every order of a lossless, settling move: every other object ends where its name's last bytes, if they are the old name after a comma, are replaced, and is unchanged but for its name |
| Operations.EveryUpdateHasOrders | adcorefake/ou.go:105-108 | For any directory and spec there are orders for the update of every object, so Update can always be called |
| Operations.UpdateKeepsAll | adcoretest/suite.go:143-170 | A lossless update keeps every object with its GUID, class, members and access list, whatever the order |
| Operations.UpdateConserves | adcorefake/ou.go:105-112 | No order of an update loses an object if and only if it moves nothing or its move is lossless |
| Operations.FreeUpdateConserves | adcoretest/suite.go:143-170 | An update to a free place without names that differ in case only keeps every object with its GUID at its renamed key |
| Operations.ChildrenCountIff | adcorefake/fake.go:165-177 | On printed single-attribute names the count is that of the direct children if and only if no stored name lies deeper |
| Operations.GrandchildBlocksDelete | adcorefake/ou.go:128-133 | A concrete unit without children that Delete refuses to delete |
| Operations.GetByGuid | identity.go:34-36 | Get by the GUID of a stored object returns exactly that object's model |
| Operations.ReadBack | adcoretest/suite.go:40-56 | Get right after Create returns exactly what Create returned |
| Operations.MatchesByName | adcorefake/fake.go:107-112 | An identity by name is answered by every stored name that names the same, however either is spelled |
| Operations.OccupiedIff | adcorefake/ou.go:26-31 | A new name is taken exactly when some stored name names the given name directly in what the container names |
| Operations.GetByName | adcorefake/ou.go:47-56 | Right after an allowed create, Get by any spelling of the new name returns exactly the created model; by a text that names no stored object, or nothing, it is not found |
| Operations.GetByGuidText | adcorefake/fake.go:101-106 | Get by a GUID finds exactly the object with that very text as its GUID, if it is of the class |
| Operations.DeletedIsAbsent | adcoretest/suite.go:58-71 | After a delete Get by the object's GUID reports it as not found |
| History.HistoryKeepsValid | adcorefake/fake.go:17-44 | After every operation of every run: each key is its object's name and its model's, model and object share the GUID, GUIDs are distinct and issued, access lists are valid |
| History.NoGuidIsReused | adcoretest/suite.go:143-145 | An object stored later in a run with a GUID issued by now is stored now, with the same class: no GUID is reused and a deleted object stays absent |
| History.CarefulIsExact | adcorefake/ou.go:14-136 | An operation loses no object, in any order, if and only if the key it creates is free and the move it makes is lossless; for a created object a container that is not blank is enough |
| History.CarefulStep | adcorefake/ou.go:14-136 | One such operation adds the GUID it issues, removes the one it deletes, and keeps every other |
| History.NothingIsLost | adcoretest/suite.go:143-170 | Over whole runs of such operations the GUIDs stored are exactly those issued and not deleted |
| History.HistoryKeepsMade | adcorefake/fake.go:181-198 | In every run every stored name is type, name and container text, also after moves |
| History.DeleteLeavesOrphanIff | adcorefake/ou.go:128-135 | In every run, exactly when deleting a stored, readable unit is allowed and leaves an orphan |
| History.DeleteIsSafeIff | adcorefake/ou.go:128-135 | In every run, exactly when the store finds everything below a stored, readable unit; then no allowed delete leaves an orphan |
| History.BlankContainerCollides | spec.go:27-35 | For any spec with a blank container two creates are both allowed and leave one object |
| History.BlankContainerExample | spec.go:27-35 | The same for the concrete container " " |
| FakeDirectory.Store.constructor | adcorefake/fake.go:71-76 | A new store is empty and valid |
| FakeDirectory.Store.FindLocked | adcorefake/fake.go:98-112 | Returns some object that answers to the identity, and nil only when none does |
| FakeDirectory.Store.Taken | adcorefake/ou.go:27-31 | True exactly when some stored name equals the new one |
| FakeDirectory.Store.ValidateSpec | spec.go:25-43 | True exactly when the name is not empty and the container is not empty and readable |
| FakeDirectory.Store.Create | adcorefake/ou.go:14-45 | A constraint error exactly when the name or the container is empty or the container unreadable, already-exists exactly when it is not and the name is taken, else exactly one object with the next GUID is added; the invariant is kept; the change is one step of a run |
| FakeDirectory.Store.Get | adcorefake/ou.go:47-56 | Returns the model of some object of the class that answers to the identity, and not-found only when there is none or it is of another class |
| FakeDirectory.Store.Search | adcorefake/ou.go:58-76 | Every object of the class that is in scope once and nothing else, or an error exactly when there are more than the limit: never a truncated result |
| FakeDirectory.Store.Carry | adcorefake/fake.go:187-197 | The loop body on the heap objects is the specified visit |
| FakeDirectory.Store.MoveLocked | adcorefake/fake.go:181-198 | Deleting, renaming and storing heap objects in the order the range takes ends in the directory the move theorems are about |
| FakeDirectory.Store.Update | adcorefake/ou.go:78-113 | Fails without change, with a constraint error exactly when the spec is invalid and else with not-found; or is the specified update of an object that answers to the identity; the invariant is kept; the change is one step of a run |
| FakeDirectory.Store.ChildrenLocked | adcorefake/fake.go:165-177 | The number of stored names below the given one at any depth |
| FakeDirectory.Store.Delete | adcorefake/ou.go:115-136 | Succeeds without change when the object is absent, refuses a unit with anything below it, else removes exactly one object; the invariant is kept; the change is one step of a run |
| FakeDirectory.Store.Members | adcorefake/group.go:140-164 | Each live object whose GUID the group lists, once, and nothing else |
| FakeDirectory.Store.Walk | adcorefake/group.go:180-197 | Terminates on every graph, since each visit marks a listed GUID, and leaves all members of what it marked marked |
| FakeDirectory.Store.MembersRecursive | adcorefake/group.go:166-200 | On any graph, with self-membership, cycles and dangling GUIDs: each live non-group object reachable through live groups once, and nothing else |
| FakeDirectory.Store.IsMember | adcorefake/group.go:242-255 | Whether the group lists the GUID of an object that answers to the second identity, or not-found |
| FakeDirectory.Store.EditMembers | adcorefake/group.go:210-240 | Adds or removes exactly the members that resolve before the first that does not, reports not-found in that case, and keeps the invariant |
| FakeDirectory.Store.GetAcl | adcorefake/acl.go:13-21 | The access list of an object that answers to the identity, and not-found only when none does |
| FakeDirectory.Store.Grant | adcorefake/acl.go:26-58 | The access list becomes the granted list the algebra is about, nothing else changes, and the invariant is kept |
| FakeDirectory.Store.Revoke | adcorefake/acl.go:63-92 | The access list becomes the revoked list the algebra is about, nothing else changes, and the invariant is kept |
| FakeDirectory.Append | adcorefake/acl.go:42-56 | The loop with its set of seen keys computes the granted list |
| FakeDirectory.Keep | adcorefake/acl.go:79-90 | The loop with its set of dropped keys computes the revoked list |

## Left out

- Error texts and, for `ParseDN` and its callers, the kinds of error: only that a call fails.
- Unicode case tables in the in-memory directory: its names are lower-cased as ASCII. For other text the source
  slices raw bytes after a match on text whose lower-casing may have another length.
- `sort.Strings` has the contract of an in-place insertion sort; its own algorithm is not modelled.
- The five object classes share one model with a class tag. Their own attributes (account names, SIDs, group scope
  and category, computer and service-account fields), the validators of those and the copying of them are not
  modelled, nor is the SID of a `Member`. A shared specification stands for their `Create`, `Get`, `Search`,
  `Update` and `Delete`, which have the shape of those of organizational units.
- FakeDirectory.Store.Members: does not model the SID of a member.
- FakeDirectory.Store.MembersRecursive: does not model the SID of a member.
- StoredNames.MoveOnNames: is for names in printed form; of other stored names StoredNames.MovedChild says what the
  move does to them.
- FakeDirectory.Store.FindLocked: identities by sAMAccountName and by SID are not modelled, because with duplicate
  account names what they find depends on map order.
- FakeDirectory.Store.Update: the order that the range of the move takes, for each object that the lookup may find, is
  a parameter and is assumed to complete; Moves.MoveTerminatesIff says when that is certain, and
  Operations.EveryUpdateHasOrders that it is possible.
- Moves.MoveResult: states the result for a free target only, also for one that loses objects. Orbits.SettledResult
  states it for every lossless move that does not depend on the order. What a move onto stored objects leaves
  depends on the order; of it only Moves.RunKeepsValid, Moves.MoveOntoOccupiedLoses and
  Operations.UpdateKeepsValid speak.
- Scope.BelowIsAncestor: is for names in printed form with one attribute an RDN and types over letters, digits, '-'
  and '.', and a non-empty base; the source compares whatever text it is given. For names as the store makes them, with
  any container text, see the rows of StoredNames.
- Scope.SubtreeScope: has the same restriction.
- Scope.OneLevelScope: has the same restriction.
- The container field of descendants is not refreshed by a move, as in the source, so no result speaks of it.
- The store's mutex: its operations are modelled as sequential, and their use of the keyed mutex, on the text of
  the identity, is not composed with `LockProtocol`.
- Operations.ChildrenCountIff: has the same restriction.
- LockProtocol.ReleaseTwice: `sync.Once` lets a second caller wait until the first is through; here the second
  call returns at once.
- Fairness: no schedule is assumed to be fair, so that a particular waiter gets its turn is not stated.
- A release function that is never called, and one that a goroutine hands to another to call.
- Retry.BackoffDelay: attempts below 1, for which Go's shift panics, are excluded, and so are the timer and the
  cancellation of `Backoff`.
- Retry.WithDefaults: the jitter is a real number. A NaN, which is neither below 0 nor above 1 and which the source
  therefore leaves in place, is not modelled.
- Retry.JitterStaysInBand: is over the reals; floating-point rounding and the conversion back to a duration are
  not modelled, and the random draw is any real in [0,1).
- Password history, `Recorder`, `Query.WithDefaults`, `Secret`, error classification, delegation templates,
  `ConfirmAbsent`, the schema package and contexts: single-branch facts, data or I/O.
- Real directory back ends and the network are not part of this model.
