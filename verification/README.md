# Verified models of neotune's data structures and protocols

neotune is a Spotify terminal client: a Python front end (`src/`) around a bundled librespot
(`librespot_src/`). This project models the self-contained logic of both in Dafny and proves what
that logic is for. `dafny verify dfyconfig.toml` checks everything.

| file | what it models |
|---|---|
| `range_vectors.dfy`, `range_set.dfy`, `range_set_laws.dfy` | the interval set of the audio fetcher: canonical vectors of ranges, the in-place edits, the laws of the operations |
| `shuffle.dfy`, `shuffle_vec.dfy` | the reversible shuffle of a track list with its pinned first track |
| `powers.dfy`, `base62.dfy`, `spotify_id.dfy` | base-62 ids: the limb-wise printer and the checked parser |
| `spotify_uri.dfy`, `spotify_uri_laws.dfy` | the URI parser and printer, and what literal URIs mean |
| `size_limiter.dfy` | the LRU byte budget of the audio cache |
| `diffie_hellman.dfy` | square-and-multiply and key agreement |
| `playback.dfy`, `playback_laws.dfy` | the playback position that spirc keeps and the one it reports, and the status |
| `context_resolver.dfy`, `context_resolver_runs.dfy`, `context_resolver_laws.dfy` | the queue of contexts to resolve and all its runs |
| `cache_store.dfy`, `cache_runs.dfy` | the Python cache and its runs |
| `api_service.dfy`, `api_laws.dfy` | the throttled API call |
| `api_interleavings.dfy`, `api_pauses.dfy` | the throttle and the rate-limit pause under threads |
| `activity.dfy`, `activity_laws.dfy` | the history of recently played contexts |
| `wrappers.dfy` | options and results |

Objects that update their fields are classes, in-place loops are methods with invariants, and each
method is tied to a specification: a set, a pure step function, or a stated relation. The lemmas
about those specifications carry the whole-run results, and the `_laws` files say in literal terms
what the specifications compute.

## Findings

Places where the code does less than its documentation or an obvious reading suggests. Each is
proved: by a stated condition under which the expected property holds, or by a run that shows it
can fail.

- The fallback of `_safe_api_call` to an expired cache entry (`src/network/base.py:105-110`,
  `116-121`) never returns one in sequential use: the first lookup at line 98 has already deleted
  it. `SafeApiCall` therefore answers a refused call by default unless an unexpired value is cached.
- `try_finish` is described as handling the last entry of its kind. When that kind is autoplay, the
  autoplay request made right afterwards can itself be queued, so that an entry of that kind is left.
  `FinishedTypeIsGone` gives the exact condition, `AutoplayMayQueueItself` an instance.
- The throttle spaces the clock readings of an endpoint's calls, not the moments at which they go
  out, because a thread reads the clock before it takes the lock. The moments of two calls are the
  interval apart in every interleaving if and only if the earlier call waited no longer for the lock
  than the later one (`DispatchesApartExactly`); they are short of it by at most the earlier wait
  (`ShortfallIsExtraWait`). `DispatchesMayCoincide` is an instance.
- With threads the end of the rate-limit pause can move back: whatever is stored last overwrites it.
  It does so if and only if an answer is stored whose `Retry-After` plus the time between the answers
  is below that of the answer stored last (`MovesBackExactly`, `LaterAnswerWins`). That takes another
  call that raised it after the check of the call that is stored (`MovesBackOnlyAfterAnother`), hence
  never happens while calls do not overlap (`OneAtATimeNeverMovesBack`). `PauseMayMoveBack` is an
  instance for any two lengths.
- A call can take the lock, and then go out, inside a pause. It takes the lock inside one if and only
  if, after its check of the pause, another call was the last to store the end of a pause that is not over
  (`LocksInsidePauseExactly`); `LockMayFallInsidePause` is an instance for any `Retry-After`. A call
  without a throttle never does (`UnthrottledIsOutsidePauses`).
- Reading the clock and comparing it with the end of the pause are two steps, so that a reading taken
  inside a pause can pass: if and only if the last end stored in between is not after it
  (`ReadInsidePausePassesExactly`, with the instance `ReadingMayFallInsidePause`). At the check the
  end of the pause is never after the reading (`ChecksAreOutsidePauses`).
- A 429 answer whose `Retry-After` is not a whole number makes `_safe_api_call` raise instead of
  answering by default, because the conversion at `src/network/base.py:141` is inside the handler;
  the pause is not extended (`PausesExactly`). `AnswersExactly` says that a call raises in this case and no other.
- The player events `Loading` and `Seeked` rewrite only the reported position. A run keeps it equal to
  spirc's own if and only if each of these events announces the position that spirc has
  (`RunsStayInSyncExactly`); otherwise the drift is the error of the last such event
  (`DriftIsTheLastError`), and it is what other devices are off by (`NotifiedDevicesAgree`).
  `LateSeekedLags` is an instance: a `Seeked` event that comes some time after the seek.
- The cast to 32 bits in `position` makes the two positions differ after 2^32 ms without a
  correction; `InSyncMeans` states the equality with that bound, for any behaviour of the clock, and
  `LongPlayWraps` is an instance.
- A URI value survives printing and parsing only if its free-text fields hold no colon, a local
  file's duration is whole seconds, and an `Unknown` has the kind `unknown` (`RoundTripExactly`).
  `ColonDoesNotComeBack`, `HalfSecondDoesNotComeBack` and `OtherKindDoesNotComeBack` are instances.
- `powm` with exponent zero and modulus one returns one instead of zero (`PowmIsModularPower`).

## Model

| member | source | states |
|---|---|---|
| `RangeVectors.CanonicalMeans` | librespot_src/audio/src/range_set.rs:99-133 | the invariant of the vector: ranges are non-empty, and each ends strictly before every later one starts |
| `RangeVectors.CanonicalUnique` | librespot_src/audio/src/range_set.rs:29-32 | two canonical vectors that denote the same offsets are the same vector |
| `RangeVectors.Normal` | librespot_src/audio/src/range_set.rs:29-32 | every finite set of offsets below `usize::MAX` has a canonical vector |
| `RangeVectors.TotalLengthIsCardinality` | librespot_src/audio/src/range_set.rs:55-57 | the summed lengths of a canonical vector are the number of offsets it denotes |
| `RangeVectors.TotalLengthFits` | librespot_src/audio/src/range_set.rs:55-57 | that sum fits in a `usize` |
| `RangeVectors.InclusionExclusion` | librespot_src/audio/src/range_set.rs:55-57 | lengths of a union and an intersection add up to the lengths of the operands |
| `RangeSets.RangeSet.Len` | librespot_src/audio/src/range_set.rs:55-57 | the result is the number of members and does not overflow |
| `RangeSets.RangeSet.Contains` | librespot_src/audio/src/range_set.rs:67-76 | true exactly for members |
| `RangeSets.RangeSet.ContainedLengthFromValue` | librespot_src/audio/src/range_set.rs:78-87 | the maximal run of members from the value on: all of it is there, the next offset is not |
| `RangeSets.RangeSet.ContainsRangeSet` | librespot_src/audio/src/range_set.rs:90-97 | true exactly when the other set is a subset |
| `RangeSets.RangeSet.AddRange` | librespot_src/audio/src/range_set.rs:99-133 | canonical form is kept and the members become the union with the interval |
| `RangeSets.RangeSet.MergeFrom` | librespot_src/audio/src/range_set.rs:114-127 | merging all touching ranges keeps canonical form and adds just the interval |
| `RangeSets.RangeSet.AddRangeSet` | librespot_src/audio/src/range_set.rs:136-140 | the members become the union with the other set |
| `RangeSets.RangeSet.Union` | librespot_src/audio/src/range_set.rs:143-147 | a new canonical set with the union of the members |
| `RangeSets.RangeSet.SubtractRange` | librespot_src/audio/src/range_set.rs:149-195 | through drop, trim, hole punch and truncate-then-continue, canonical form is kept and the members become the difference |
| `RangeSets.RangeSet.RemoveFrom` | librespot_src/audio/src/range_set.rs:160-175 | dropping covered ranges and trimming the next one removes just the interval |
| `RangeSets.RangeSet.SubtractRangeSet` | librespot_src/audio/src/range_set.rs:197-201 | the members become the difference with the other set |
| `RangeSets.RangeSet.Minus` | librespot_src/audio/src/range_set.rs:203-207 | a new canonical set with the difference of the members |
| `RangeSets.RangeSet.Intersection` | librespot_src/audio/src/range_set.rs:209-242 | the two-pointer walk ends with a canonical set of exactly the common members |
| `RangeSets.JoinMembers` | librespot_src/audio/src/range_set.rs:119-124 | a range that spans the new one and all ranges it touches covers nothing else |
| `RangeSets.Carved` | librespot_src/audio/src/range_set.rs:160-193 | replacing the ranges that meet the interval by what is left of them subtracts the interval |
| `RangeSets.TakeOverlap` | librespot_src/audio/src/range_set.rs:222-238 | the overlap of two first ranges is all that the one ending first contributes to the intersection |
| `RangeSetLaws.Replay` | librespot_src/audio/src/range_set.rs:99-195 | after any history of additions and subtractions the vector is the normal form of the resulting set |
| `RangeSetLaws.UnionCommutes` | librespot_src/audio/src/range_set.rs:143-147 | both orders give the union of the members as the same vector |
| `RangeSetLaws.UnionAssociates` | librespot_src/audio/src/range_set.rs:143-147 | both groupings give the union of the members as the same vector |
| `RangeSetLaws.UnionIsIdempotent` | librespot_src/audio/src/range_set.rs:143-147 | the union of a set with itself is the same vector |
| `RangeSetLaws.IntersectionIsDoubleMinus` | librespot_src/audio/src/range_set.rs:203-242 | `a.intersection(b)` and `a.minus(a.minus(b))` hold the common members in the same vector |
| `RangeSetLaws.LengthsIncludeAndExclude` | librespot_src/audio/src/range_set.rs:55-57 | the `len`s of union and intersection, which count their members, add up to the two `len`s |
| `RangeSetLaws.SubsetIsAbsorption` | librespot_src/audio/src/range_set.rs:90-97 | the subset test is inclusion, and true exactly when the union is the same vector as the first set |
| `Shuffles.ShuffleRoundTrip` | librespot_src/connect/src/shuffle_vec.rs:80-108 | undoing the swaps in reverse order inverts them, in both directions |
| `Shuffles.ShuffleKeepsElements` | librespot_src/connect/src/shuffle_vec.rs:80-82 | the shuffled vector is a rearrangement |
| `Shuffles.DrawnElement` | librespot_src/connect/src/shuffle_vec.rs:73-82 | each draw says which of the elements not yet placed gets the last free place |
| `Shuffles.DifferentDrawsDiffer` | librespot_src/connect/src/shuffle_vec.rs:73-82 | on distinct elements different draws give different orders |
| `Shuffles.EveryOrderIsReached` | librespot_src/connect/src/shuffle_vec.rs:73-82 | every rearrangement comes from some draws |
| `Shuffles.DrawsAreOrders` | librespot_src/connect/src/shuffle_vec.rs:73-82 | draws and orders of distinct elements correspond one to one |
| `ShuffleVecs.ShuffleVec.ShuffleWithRng` | librespot_src/connect/src/shuffle_vec.rs:63-90 | the new elements, stored draws and pinned position are those of shuffling the original order |
| `ShuffleVecs.ShuffleVec.SwapByDraws` | librespot_src/connect/src/shuffle_vec.rs:80-82 | the swap loop applies all draws in place |
| `ShuffleVecs.ShuffleVec.UndoDraws` | librespot_src/connect/src/shuffle_vec.rs:103-108 | the swap loop of `unshuffle` undoes all draws in place; its early return is unreachable |
| `ShuffleVecs.ShuffleVec.Unshuffle` | librespot_src/connect/src/shuffle_vec.rs:92-109 | the elements return to the original order and the stored shuffle is forgotten |
| `ShuffleVecs.ShuffleVec.Position` | librespot_src/connect/src/shuffle_vec.rs:86 | the first element that matches, if any |
| `ShuffleVecs.ShuffleVec.Set` | librespot_src/connect/src/shuffle_vec.rs:33-37 | an edit through `DerefMut` changes the original at the element's original position only |
| `ShuffleVecs.EditLands` | librespot_src/connect/src/shuffle_vec.rs:92-109 | where an edit made while shuffled ends up, and that this is where the element came from |
| `ShuffleVecs.OriginalFollowsEdits` | librespot_src/connect/src/shuffle_vec.rs:63-109 | over any history the original order changes by the edits alone |
| `ShuffleVecs.UnshuffleRestores` | librespot_src/connect/src/shuffle_vec.rs:92-109 | after any history of shuffles, unshuffles and edits a final unshuffle restores the source with its edits |
| `ShuffleVecs.ReshuffleForgets` | librespot_src/connect/src/shuffle_vec.rs:69-90 | after any two histories with the same edits a reshuffle gives the same vector, whatever was shuffled before |
| `ShuffleVecs.FirstIsPinned` | librespot_src/connect/src/shuffle_vec.rs:86-89 | the first match in the order of the draws, if there is one, changes places with the first element; nothing else differs from that order |
| `Base62.TwentyTwoDigitsSuffice` | librespot_src/core/src/spotify_id.rs:35 | 22 base-62 digits hold any 128-bit number |
| `Base62.DigitOfChar` | librespot_src/core/src/spotify_id.rs:31 | the digit table and the digit parser are inverse on digits |
| `Base62.CharOfDigit` | librespot_src/core/src/spotify_id.rs:63-68 | they are inverse on alphanumeric characters |
| `Base62.TableEntry` | librespot_src/core/src/spotify_id.rs:31 | both are those of the literal table of 62 characters |
| `Base62.EncodeExactly` | librespot_src/core/src/spotify_id.rs:100-138 | character `i` of an id is the table entry of its digit at the power `21 - i` of 62 |
| `Base62.DecodeExactly` | librespot_src/core/src/spotify_id.rs:56-75 | a string is accepted exactly if it has 22 characters of the table, and stands for the sum of their positions times the powers of 62; one with another character is rejected |
| `Base62.DecodeEncode` | librespot_src/core/src/spotify_id.rs:56-138 | decoding the encoding of a 128-bit number gives it back |
| `Base62.EncodeDecode` | librespot_src/core/src/spotify_id.rs:56-138 | encoding the decoding of an accepted string gives it back |
| `Base62.AcceptedAreEncodings` | librespot_src/core/src/spotify_id.rs:56-75 | the accepted strings are exactly the encodings of 128-bit numbers |
| `Base62.ValueGrows` | librespot_src/core/src/spotify_id.rs:70-71 | a prefix that overflows makes the whole value overflow |
| `SpotifyIds.PushLimb` | librespot_src/core/src/spotify_id.rs:116-130 | one round shifts the number in the buffer by 32 bits and adds a limb, within 64-bit arithmetic and the 22 digits |
| `SpotifyIds.LimbOf` | librespot_src/core/src/spotify_id.rs:117 | the shifts and casts yield the four 32-bit limbs |
| `SpotifyIds.NextLimb` | librespot_src/core/src/spotify_id.rs:116-117 | the limbs taken so far are the high bits of the id |
| `SpotifyIds.RoomForCarry` | librespot_src/core/src/spotify_id.rs:125-129 | while there is a carry there is room for another digit |
| `SpotifyIds.Digits` | librespot_src/core/src/spotify_id.rs:132-137 | reading the buffer backwards through the digit table gives the numeral |
| `SpotifyIds.ToBase62` | librespot_src/core/src/spotify_id.rs:100-138 | the result is the 22-digit base-62 expansion of the id |
| `SpotifyIds.FromBase62` | librespot_src/core/src/spotify_id.rs:56-75 | accepts exactly 22 alphanumeric characters with a value below 2^128, and returns that value |
| `SpotifyUris.SplitExactly` | librespot_src/core/src/spotify_uri.rs:125 | the parts of a string are the only colon-free strings that give it back when joined by colons |
| `SpotifyUris.SplitStep` | librespot_src/core/src/spotify_uri.rs:125 | a colon-free part before a colon is split off, whatever follows |
| `SpotifyUris.ParseDecimal` | librespot_src/core/src/spotify_uri.rs:176-179 | a printed 64-bit duration parses back and holds no colon |
| `SpotifyUris.FromUri` | librespot_src/core/src/spotify_uri.rs:121-193 | stepping through the parts yields the meaning of the split URI, with the source's errors |
| `SpotifyUris.PrintableRoundTrip` | librespot_src/core/src/spotify_uri.rs:206-219 | a value without colons in its free text comes back from its printed form |
| `SpotifyUris.RoundTripExactly` | librespot_src/core/src/spotify_uri.rs:90-219 | a value survives printing and parsing if and only if it is printable |
| `SpotifyUris.ColonDoesNotComeBack` | librespot_src/core/src/spotify_uri.rs:206-219 | an instance: a track title with a colon |
| `SpotifyUris.HalfSecondDoesNotComeBack` | librespot_src/core/src/spotify_uri.rs:206-219 | an instance: a duration of half a second |
| `SpotifyUris.OtherKindDoesNotComeBack` | librespot_src/core/src/spotify_uri.rs:75-86 | an instance: an `Unknown` of another kind |
| `SpotifyUris.ParsedIsPrintable` | librespot_src/core/src/spotify_uri.rs:121-193 | what parsing yields is printable, up to the kind of an `Unknown` |
| `SpotifyUris.PrintingNormalises` | librespot_src/core/src/spotify_uri.rs:90-219 | printing a parsed URI is accepted again and idempotent, and except for `Unknown` parses to the same value |
| `SpotifyUriLaws.InvalidRootExactly` | librespot_src/core/src/spotify_uri.rs:127-131 | a string is rejected for its root exactly when the text before its first colon is not "spotify" |
| `SpotifyUriLaws.IdUris` | librespot_src/core/src/spotify_uri.rs:75-172 | "spotify:track:" and an id parse to that track and are what it prints; so for albums, artists, episodes and shows, with or without a user in front and whatever follows |
| `SpotifyUriLaws.PlaylistUris` | librespot_src/core/src/spotify_uri.rs:135-166 | the same for playlists, which alone keep the user |
| `SpotifyUriLaws.PlaylistPrinted` | librespot_src/core/src/spotify_uri.rs:206-219 | what playlists print, with and without a user |
| `SpotifyUriLaws.BadIds` | librespot_src/core/src/spotify_uri.rs:154-172 | a name that is not an id is rejected for each of the six kinds |
| `SpotifyUriLaws.LocalUris` | librespot_src/core/src/spotify_uri.rs:173-187 | the four fields of a local file in their order; a duration that is no number is a format error |
| `SpotifyUriLaws.LocalPrinted` | librespot_src/core/src/spotify_uri.rs:90-104 | what local files print |
| `SpotifyUriLaws.UnknownUris` | librespot_src/core/src/spotify_uri.rs:188-192 | any other kind is kept when parsed and printed as "unknown" |
| `SpotifyUriLaws.TooFewParts` | librespot_src/core/src/spotify_uri.rs:127-152 | missing parts are a format error |
| `SpotifyUriLaws.ParseU64Exactly` | librespot_src/core/src/spotify_uri.rs:176-179 | a duration is a number below 2^64 in decimal digits, possibly after a plus sign |
| `SpotifyUriLaws.PlainDecimal` | librespot_src/core/src/spotify_uri.rs:90-104 | a printed duration has no sign and no leading zero |
| `SizeLimiters.TotalWithout` | librespot_src/core/src/cache.rs:39 | the sum of the sizes does not depend on the order of the paths |
| `SizeLimiters.SizeLimiter.Add` | librespot_src/core/src/cache.rs:56-64 | path, size and time are set or replaced; the running total stays the sum of the sizes |
| `SizeLimiters.SizeLimiter.Pop` | librespot_src/core/src/cache.rs:76-92 | takes out a least recently used path exactly when the limit is exceeded; the error branches are unreachable |
| `SizeLimiters.SizeLimiter.Update` | librespot_src/core/src/cache.rs:95-99 | sets the time of a path that is present, and says whether it was |
| `SizeLimiters.SizeLimiter.Remove` | librespot_src/core/src/cache.rs:102-114 | removes the path from both structures, and says whether it was there; the error branch is unreachable |
| `SizeLimiters.SizeLimiter.Prune` | librespot_src/core/src/cache.rs:215-244 | ends within the limit, having evicted least recently used paths one by one while the limit was exceeded, and reports refused removals |
| `SizeLimiters.LruPrefixMeans` | librespot_src/core/src/cache.rs:71-92 | evicted paths are distinct, come oldest first, and none was used later than a path that stays |
| `SizeLimiters.PruneIsLeast` | librespot_src/core/src/cache.rs:215-244 | no LRU policy can meet the limit without evicting all that a prune evicts, up to the choice among paths as old as the last evicted one |
| `SizeLimiters.OkMeansAllRemoved` | librespot_src/core/src/cache.rs:226-243 | success means that the file system removed every evicted file |
| `SizeLimiters.ReportMeans` | librespot_src/core/src/cache.rs:215-244 | the count is the number of files that were removed, the error the last refusal |
| `SizeLimiters.Run` | librespot_src/core/src/cache.rs:42-115 | in every run both structures hold what the operations and the evictions leave, the total is exact, and each prune evicts what it should; a run stops only at an addition that would take the total in use out of 64 bits |
| `SizeLimiters.HistoryMeans` | librespot_src/core/src/cache.rs:42-115 | after any history a path is present exactly when it was added and neither removed nor evicted since; its size is the one it was added with, its time the last one given |
| `DiffieHellman.BytesRoundTrip` | librespot_src/core/src/diffie_hellman.rs:55-66 | reading big-endian bytes back gives the number, zero included |
| `DiffieHellman.BytesExactly` | librespot_src/core/src/diffie_hellman.rs:55-66 | the printed bytes are the only ones that give the number back without a leading zero |
| `DiffieHellman.BigEndian` | librespot_src/core/src/diffie_hellman.rs:59-66 | the value of big-endian bytes is their sum weighted by the powers of 256 |
| `DiffieHellman.LittleEndian` | librespot_src/core/src/diffie_hellman.rs:46 | little-endian bytes are read in reverse |
| `DiffieHellman.Powm` | librespot_src/core/src/diffie_hellman.rs:21-35 | square-and-multiply computes the modular power |
| `DiffieHellman.PowmIsModularPower` | librespot_src/core/src/diffie_hellman.rs:21-35 | it is the modular power if and only if the modulus is above one or the exponent is not zero |
| `DiffieHellman.DhLocalKeys.Random` | librespot_src/core/src/diffie_hellman.rs:43-53 | the private key is the little-endian number of the bytes, the public key its power of the generator |
| `DiffieHellman.DhLocalKeys.SharedSecret` | librespot_src/core/src/diffie_hellman.rs:59-66 | the bytes of the remote key to the private key modulo the prime |
| `DiffieHellman.SharedPower` | librespot_src/core/src/diffie_hellman.rs:59-66 | a party computes the generator to the product of both private keys |
| `DiffieHellman.Agree` | librespot_src/core/src/diffie_hellman.rs:55-66 | two parties derive the same secret bytes for all private keys |
| `Playback.ConnectState.UpdatePosition` | librespot_src/connect/src/state.rs:377-381 | sets the reported position and its timestamp |
| `Playback.ConnectState.UpdatePositionInRelation` | librespot_src/connect/src/state.rs:442-460 | moves position and timestamp without changing what a playing device shows |
| `Playback.ConnectState.SetStatus` | librespot_src/connect/src/state.rs:329-363 | the paused, buffering and playing flags and the speed of a status |
| `Playback.SpircTask.HandlePlay` | librespot_src/connect/src/spirc.rs:1515-1534 | resumes from the paused position |
| `Playback.SpircTask.HandlePause` | librespot_src/connect/src/spirc.rs:1554-1575 | pauses at the current position |
| `Playback.SpircTask.HandlePlayPause` | librespot_src/connect/src/spirc.rs:1542-1552 | toggles between the two |
| `Playback.SpircTask.HandleSeek` | librespot_src/connect/src/spirc.rs:1577-1605 | moves to the position unless it is past the duration |
| `Playback.SpircTask.Notify` | librespot_src/connect/src/spirc.rs:1896-1902 | updates the flags and, while playing, the reported position |
| `Playback.SpircTask.OnPlaying` | librespot_src/connect/src/spirc.rs:811-838 | corrects the position when it is off by more than 100 ms or playback was loading |
| `Playback.SpircTask.OnPaused` | librespot_src/connect/src/spirc.rs:839-863 | pauses at the given position unless stopped |
| `Playback.SpircTask.OnOther` | librespot_src/connect/src/spirc.rs:790-870 | what the loading, seeked and stopped events of the player change |
| `Playback.InSyncMeans` | librespot_src/connect/src/spirc.rs:1861-1871 | in sync means equal positions at every time, exactly as far as the 32-bit cast does not wrap |
| `Playback.EventsMoveDrift` | librespot_src/connect/src/spirc.rs:790-870 | a `Loading` or `Seeked` event makes its error the drift between the positions; every other event leaves the drift or removes it |
| `Playback.RunsStayInSyncExactly` | librespot_src/connect/src/spirc.rs:790-862 | a run keeps the positions in sync after each event if and only if each `Loading` or `Seeked` event announces spirc's position |
| `Playback.DriftIsTheLastError` | librespot_src/connect/src/spirc.rs:790-810 | at the end of any run the drift is zero, or the error of the last such event, or the initial drift if there was none |
| `Playback.LateSeekedLags` | librespot_src/connect/src/spirc.rs:807-810 | an instance: after a seek while playing, a later `Seeked` event makes the reported position lag by the delay |
| `Playback.LongPlayWraps` | librespot_src/connect/src/spirc.rs:1861-1871 | an instance: the cast gives zero after 2^32 ms |
| `Playback.NotifiedDevicesAgree` | librespot_src/connect/src/spirc.rs:1896-1910 | after a notification in any run other devices show spirc's position plus the drift; if all announcements were accurate, exactly spirc's position as far as the cast does not wrap |
| `Playback.PositionIsConserved` | librespot_src/connect/src/spirc.rs:1515-1605 | over any run the position is where it was plus the time played plus the jumps of seeks and player corrections |
| `Playback.TogglesConservePosition` | librespot_src/connect/src/spirc.rs:1515-1575 | over any pauses, resumptions and reports there are no jumps |
| `Playback.WithinToleranceSince` | librespot_src/connect/src/spirc.rs:811-838 | from a report of the player that it plays to the next report, seek or stop of any run, the position is the reported one plus the time played, at most 100 ms off |
| `Playback.TogglesAlternate` | librespot_src/connect/src/spirc.rs:1542-1552 | any number of toggles alternates the status and keeps the preloading flag and a loading position |
| `Playback.QuietRunsChangeNothing` | librespot_src/connect/src/spirc.rs:790-885 | any number of player events that ask for no notification change nothing |
| `PlaybackLaws.StatusAfter` | librespot_src/connect/src/spirc.rs:1515-1605 | at any point of any run the status is what the last play, pause, toggle or `Playing`, `Paused` or `Stopped` event made of the one before, with its preloading flag |
| `PlaybackLaws.KindIsKept` | librespot_src/connect/src/spirc.rs:1577-1605 | seeks, notifications and `Loading` and `Seeked` events keep which status it is and its preloading flag |
| `PlaybackLaws.ToldStatus` | librespot_src/connect/src/state.rs:329-363 | after a notification devices are told paused, with speed zero, exactly for the paused, loading-paused and stopped statuses, buffering for all but playing |
| `PlaybackLaws.FlagsAreKept` | librespot_src/connect/src/state.rs:329-363 | nothing but a notification changes those flags |
| `PlaybackLaws.PositionExactly` | librespot_src/connect/src/spirc.rs:1861-1871 | spirc's position for each status |
| `PlaybackLaws.SeekMoves` | librespot_src/connect/src/spirc.rs:1577-1605 | a seek up to the duration moves both positions there; one beyond it changes nothing |
| `PlaybackLaws.PlayingReports` | librespot_src/connect/src/spirc.rs:811-838 | a report is taken while loading and when it is more than 100 ms off; otherwise it changes nothing |
| `PlaybackLaws.PausedReports` | librespot_src/connect/src/spirc.rs:839-863 | a report is taken unless stopped, and asks for a notification |
| `PlaybackLaws.Announcements` | librespot_src/connect/src/spirc.rs:790-810 | what `Loading` and `Seeked` events report; the status stays |
| `PlaybackLaws.Stops` | librespot_src/connect/src/spirc.rs:864-870 | a stop asks for a notification unless already stopped, and leaves the report |
| `PlaybackLaws.ControlsReport` | librespot_src/connect/src/spirc.rs:1515-1575 | play, pause and toggle report spirc's position exactly when they change whether it advances |
| `ContextResolvers.FirstValid` | librespot_src/connect/src/context_resolver.rs:191-203 | the first entry with a usable uri: all before it have none |
| `ContextResolvers.ContextResolver.Add` | librespot_src/connect/src/context_resolver.rs:141-172 | refused within the retry time of a failure, ignored when queued, else appended |
| `ContextResolvers.ContextResolver.AddList` | librespot_src/connect/src/context_resolver.rs:174-178 | adds the entries in order |
| `ContextResolvers.ContextResolver.FindNext` | librespot_src/connect/src/context_resolver.rs:191-203 | the index of the next usable entry |
| `ContextResolvers.ContextResolver.RemoveUsedAndInvalid` | librespot_src/connect/src/context_resolver.rs:180-185 | drops the unusable entries up to the used one, and that one |
| `ContextResolvers.ContextResolver.MarkNextUnavailable` | librespot_src/connect/src/context_resolver.rs:244-249 | remembers when the next entry failed |
| `ContextResolvers.ContextResolver.TryFinish` | librespot_src/connect/src/context_resolver.rs:289-316 | the count over the queue and the active context decide whether the state is set up |
| `ContextResolvers.ContextResolver.HandleNextContext` | librespot_src/connect/src/spirc.rs:607-651 | the queue and the marks after a context came back or failed |
| `ContextResolverRuns.AddedExactly` | librespot_src/connect/src/context_resolver.rs:141-172 | an entry is in the queue after `add` exactly when it was there or had not failed within the retry time |
| `ContextResolverRuns.FailureKeepsValid` | librespot_src/connect/src/spirc.rs:609-613 | an entry that failed leaves the queue when it is marked |
| `ContextResolverRuns.RunsServeInOrder` | librespot_src/connect/src/context_resolver.rs:141-203 | in every run there are no duplicates, nothing marked is queued, and entries are served first in, first out past unusable ones |
| `ContextResolverRuns.UnavailableStaysOut` | librespot_src/connect/src/context_resolver.rs:141-162 | no run queues a failed context again within the retry hour |
| `ContextResolverRuns.FailureMarks` | librespot_src/connect/src/spirc.rs:609-613 | a failure marks the entry that was being resolved with the current time |
| `ContextResolverRuns.FinishedTypeIsGone` | librespot_src/connect/src/spirc.rs:634-650 | after finishing no entry of the type is left, except exactly when a new autoplay request was admitted |
| `ContextResolverRuns.AutoplayMayQueueItself` | librespot_src/connect/src/spirc.rs:1683-1715 | an instance of that exception |
| `ContextResolverLaws.ResolveUriExactly` | librespot_src/connect/src/context_resolver.rs:69-80 | the own uri unless empty or a search, then the first track of the first page, then the fallback |
| `ContextResolverLaws.AddedMeans` | librespot_src/connect/src/context_resolver.rs:141-172 | an entry is refused for 3600 seconds after it failed and only then; else it is queued once and its mark is gone |
| `ContextResolverLaws.AddedAllInOrder` | librespot_src/connect/src/context_resolver.rs:174-178 | new entries are queued in the order of the list |
| `ContextResolverLaws.AppendedExactly` | librespot_src/connect/src/context_resolver.rs:40-47 | what is queued for a uri that a context leaves to append |
| `ContextResolverLaws.RemovedExactly` | librespot_src/connect/src/context_resolver.rs:180-185 | the next usable entry goes with the unusable ones before it; without one just the first entry goes |
| `ContextResolverLaws.FailedExactly` | librespot_src/connect/src/spirc.rs:609-613 | a failure drops and marks the next entry and changes no other mark |
| `ContextResolverLaws.FinishesExactly` | librespot_src/connect/src/context_resolver.rs:284-316 | the state is set up exactly when the next entry is the only one of its type and is autoplay or the default context is active |
| `ContextResolverLaws.FetchedExactly` | librespot_src/connect/src/spirc.rs:614-651 | what came back is queued, the autoplay request only on finishing, then the entry is dropped |
| `CacheStores.CacheStore.Set` | src/core/cache.py:111-132 | only expired entries and at most one soonest to expire are lost, the store stays within its size |
| `CacheStores.CacheStore.EvictExpired` | src/core/cache.py:186-191 | exactly the expired entries go |
| `CacheStores.CacheStore.EnforceSize` | src/core/cache.py:196-200 | a full store loses one entry that would expire soonest |
| `CacheStores.CacheStore.Get` | src/core/cache.py:139-158 | an expired entry is dropped and not returned, unless expiry is ignored |
| `CacheStores.AfterSetKeeps` | src/core/cache.py:126-127 | after a set every other key was there before, unchanged and not expired; all of those are left but for at most one, which expires soonest and goes only if they fill the store |
| `CacheStores.LookupDropsExactly` | src/core/cache.py:150-155 | a lookup drops its own key exactly when it has expired, and nothing else |
| `CacheRuns.Run` | src/core/cache.py:111-158 | any sequence of sets and gets yields a run in this sense |
| `CacheRuns.SetIsRemembered` | src/core/cache.py:111-158 | in every run a get answers the value set under its key until the expiry, unless it was replaced or was a possible victim of the size limit |
| `CacheRuns.GetIsLastSet` | src/core/cache.py:139-158 | in every run a get answers nothing else than the last value set, and nothing after its expiry |
| `ApiServices.SpotifyService.Fallback` | src/network/base.py:105-110 | any cached value, else the default |
| `ApiServices.SpotifyService.Perform` | src/network/base.py:127-175 | the effect of each outcome on cache and pause |
| `ApiServices.SpotifyService.SafeApiCall` | src/network/base.py:76-175 | when exactly a call is dispatched, what it answers, and all it changes |
| `ApiServices.RunCalls` | src/network/base.py:76-175 | in any run of calls, whatever the cache held at first, each dispatch and each answer is justified by the calls before |
| `ApiServices.DispatchesAreSpaced` | src/network/base.py:112-122 | throttled dispatches of one endpoint are the later interval apart |
| `ApiServices.PauseMovesForward` | src/network/base.py:139-143 | the end of the pause never moves back |
| `ApiServices.NoDispatchInsidePause` | src/network/base.py:102-110 | nothing is dispatched before the end of a pause that was asked for |
| `ApiServices.CachedAnswersAreLatest` | src/network/base.py:93-100 | a refused call answers by default, with the value of the latest successful call with its key, or, without one, with the value cached before the run |
| `ApiServices.RunsAreJustified` | src/network/base.py:76-175 | the same for any log of such calls: what the service holds is what the calls so far left in it |
| `ApiLaws.DispatchesExactly` | src/network/base.py:87-122 | a call is dispatched exactly when there is a client, nothing unexpired is cached, the pause is over, and the interval, if any, has passed |
| `ApiLaws.AnswersExactly` | src/network/base.py:127-175 | a dispatched call answers the returned value, by default after an error or a 429, and raises exactly after a 429 with an unreadable `Retry-After`; a refused one answers the cached value or by default |
| `ApiLaws.PausesExactly` | src/network/base.py:139-143 | the end of the pause is the time of the 429 answer plus its `Retry-After` plus 30 seconds; nothing else moves it |
| `ApiLaws.RecordsExactly` | src/network/base.py:112-122 | only a dispatch with an interval records its reading, for its endpoint |
| `ApiLaws.StoresExactly` | src/network/base.py:130-132 | only a returned value is cached, under the call's key and for its time to live |
| `ApiLaws.ServesFromCache` | src/network/base.py:93-132 | after a call that stored its value the next one with its key answers it undispatched, up to the time to live and while the entry is there |
| `ApiLaws.ExpiredIsNotServed` | src/network/base.py:93-110 | after that time no refused call answers it |
| `ApiInterleavings.StepKeepsInvariant` | src/network/base.py:103-122 | every step of every thread keeps recorded readings spaced and bounded |
| `ApiInterleavings.EveryInterleavingIsSpaced` | src/network/base.py:103-122 | in every interleaving recorded readings of an endpoint are the later interval apart |
| `ApiInterleavings.OnlyDispatchesCount` | src/network/base.py:112-122 | in every interleaving the recorded reading of an endpoint is that of its last dispatch; refused calls leave no trace |
| `ApiInterleavings.LockDispatchesExactly` | src/network/base.py:112-122 | under the lock a call is dispatched exactly when its reading is the interval after that |
| `ApiInterleavings.ShortfallIsExtraWait` | src/network/base.py:103-122 | two dispatches are short of the interval by at most the extra wait of the earlier call for the lock |
| `ApiInterleavings.ClosestRun` | src/network/base.py:103-122 | for any interval and waits there is an interleaving that brings two dispatches as close as that bound allows |
| `ApiInterleavings.DispatchesApartExactly` | src/network/base.py:103-122 | dispatches with given waits are the interval apart in every interleaving if and only if the earlier call waits no longer |
| `ApiInterleavings.DispatchesMayCoincide` | src/network/base.py:103-122 | an instance: two dispatches at the same time |
| `ApiInterleavings.ChecksAreOutsidePauses` | src/network/base.py:103-122 | every throttled dispatch read the clock, then found the pause over at its reading, and then took the lock, with its endpoint and interval |
| `ApiPauses.LastAskedMeans` | src/network/base.py:139-143 | the end of the pause is the one asked for by the answer stored last: its time, its `Retry-After` and 30 seconds |
| `ApiPauses.LocksInsidePauseExactly` | src/network/base.py:103-122 | a call takes the lock inside a pause if and only if, after its check, another call was the last to store the end of a pause that is not over |
| `ApiPauses.UnthrottledIsOutsidePauses` | src/network/base.py:102-112 | a call without a throttle never goes out inside a pause |
| `ApiPauses.LockMayFallInsidePause` | src/network/base.py:112-122 | an instance for any `Retry-After`, which another call was answered with after the check |
| `ApiPauses.StepMovesBackExactly` | src/network/base.py:143 | one step moves the end of the pause back exactly when it stores an earlier end |
| `ApiPauses.MovesBackExactly` | src/network/base.py:139-143 | in every run the end moves back if and only if an answer is stored that asks for an earlier end than the one stored last |
| `ApiPauses.LaterAnswerWins` | src/network/base.py:139-143 | of two answers stored one after the other the second moves the end back if and only if its `Retry-After` plus the time between the answers is below the other's |
| `ApiPauses.InsidePauseMeansRaised` | src/network/base.py:103-143 | a call past its check has its reading inside a pause only if another call stored the end of that pause after the check |
| `ApiPauses.MovesBackOnlyAfterAnother` | src/network/base.py:139-143 | a stored answer moves the end back only if another call moved it forward after the check of the call |
| `ApiPauses.OneAtATimeNeverMovesBack` | src/network/base.py:139-143 | as long as calls do not overlap the end never moves back |
| `ApiPauses.PauseMayMoveBack` | src/network/base.py:139-143 | an instance for any two lengths, the longer stored first |
| `ApiPauses.ReadInsidePausePassesExactly` | src/network/base.py:103-104 | a reading taken inside a pause passes the check if and only if the last end stored since is not after it |
| `ApiPauses.ReadingMayFallInsidePause` | src/network/base.py:103-104 | an instance: an earlier, shorter pause is stored between reading and check |
| `Activity.ActivityService.RecordContextPlay` | src/core/activity_service.py:31-79 | the stored history is the recorded one, starting over when the old one expired; other entries are lost only to expiry and the size limit |
| `Activity.ActivityService.GetRecentContexts` | src/core/activity_service.py:81-83 | the retained history, or an empty one; an expired history is dropped and nothing else changes |
| `Activity.TruncateEarly` | src/core/activity_service.py:63-78 | cutting off old entries before moving one to the front makes no difference to the first entries |
| `Activity.HistoryIsMostRecent` | src/core/activity_service.py:31-79 | after any play log the history is the first 50 distinct uris by most recent play, without duplicates |
| `Activity.RecentUrisMeans` | src/core/activity_service.py:65-78 | every played uri, ordered by its last play |
| `Activity.PlayIsOnTop` | src/core/activity_service.py:63-79 | the play comes first with its own type and time, and other entries that stay are untouched |
| `Activity.RecordedIsNoWorse` | src/core/activity_service.py:43-61 | a play never turns a real name into a placeholder or drops metadata |
| `Activity.StayingIsNoWorse` | src/core/activity_service.py:43-61 | the same over any log during which a context stays in the history |
| `ActivityLaws.PlaceholderExactly` | src/core/activity_service.py:44-53 | a name is a placeholder exactly when it holds a colon or is one of three words in any case |
| `ActivityLaws.HistoryIsPrefix` | src/core/activity_service.py:78 | the history is the first 50 of the distinct uris by most recent play |
| `ActivityLaws.HeldForADay` | src/core/constants.py:80 | it is kept for a day after the last play |
| `ActivityLaws.NameOfLastReal` | src/core/activity_service.py:43-58 | while a context stays its name is that of its last play with a real name |
| `ActivityLaws.NameWithoutReal` | src/core/activity_service.py:43-58 | without one, a real name from before is kept, or the placeholder of the last play is shown |
| `ActivityLaws.MetadataExactly` | src/core/activity_service.py:60-74 | its metadata is that of the last play that brought any, or else what was there before |
| `ActivityLaws.LastPlayShows` | src/core/activity_service.py:66-75 | its type and time are those of the last play |
| `Activity.RecordAll` | src/core/activity_service.py:27-79 | a log of plays against the real cache stores that history as long as no play comes too late |

## Left out

- Network and process code: requests, dealer, TCP, OAuth, discovery, the librespot subprocess.
- The terminal interface, themes, preferences, hooks, publish and subscribe, logging.
- Cryptographic primitives and the randomness of key generation; random bytes and shuffle draws are arbitrary parameters.
- Floating point: sample conversion, dithering, volume curves, parsing of file sizes. Clock readings of the Python code are real numbers.
- Protobuf conversions of metadata.
- Spotify ids: the base-16 and raw conversions. Strings are sequences of characters; a string with a non-ASCII character is rejected by `from_base62` in either view.
- SizeLimiters.SizeLimiter.Add: requires that the total with the new size fits in 64 bits, which the source assumes; directory scanning, metadata and the mutex are not modelled.
- SizeLimiters.SizeLimiter.Pop: which of several equally old paths the priority queue returns is left open.
- Playback: the player and mixer calls of the handlers, the volume, restrictions and the sending of the state, and the handlers for loading, next, previous, stop and transfer. Each handler takes one clock reading where the source may take two or three; 64-bit times do not overflow.
- ContextResolvers.ContextResolver.HandleNextContext: what applying a context leaves to append, the active context and the autoplay request are parameters; the state setup after `try_finish` is not modelled.
- Context resolving: contexts are compared by uri and pages; other protobuf fields are not part of this model.
- ApiServices.SpotifyService.SafeApiCall: connectivity tracking and the store used by the user interface; the cache key is given as a string.
- ApiServices.RunCalls: nobody else writes to the cache during a run; in the source other services share the cache object under other keys.
- ApiServices.DispatchesAreSpaced: for intervals that are not negative, as all callers pass them.
- RangeSets.RangeSet.AddRange: requires that the end of the interval fits in a `usize`, as the source's arithmetic does.
- ApiInterleavings.EveryInterleavingIsSpaced: caching is not part of the threaded model, an interval of zero stands for no throttle, a call is taken to go out when it passes the throttle, the clock does not go back, and a `Retry-After` is not negative (section 10.2.3 of RFC 9110).
- CacheStores.CacheStore.Set: disk persistence and timers; which of several entries that expire at the same time goes first is left open.
- Activity.ActivityService.RecordContextPlay: the list in the cache is modelled as a value; the source edits it in place before storing a new one, so that a caller who still holds a list from an earlier `get_recent_contexts` sees a new entry or new metadata appear in it.
- Activity: the merging of local and remote history for display.
- ShuffleVecs.ShuffleVec.Set: edits that change the length or the order of the vector while it is shuffled.
