/** What the play history shows for each context, spelled out (src/core/activity_service.py). */
module ActivityLaws {
  import opened Wrappers
  import opened CacheStores
  import opened Activity

  // ----- Placeholder names

  /** The same letters as a lower-case word, in either case; the Kelvin sign is a capital k. */
  predicate Spells(name: string, word: string) {
    |name| == |word| && forall i :: 0 <= i < |word| ==> SameLetter(name[i], word[i])
  }

  predicate SameLetter(c: char, w: char) {
    || c == w
    || ('a' <= w <= 'z' && 'A' <= c <= 'Z' && c - 'A' == w - 'a')
    || (w == 'k' && c == '\U{212A}')
  }

  function LowerChar(c: char): char {
    if 'A' <= c <= 'Z' then c - 'A' + 'a' else if c == '\U{212A}' then 'k' else c
  }

  lemma {:induction false} LowerAt(s: string)
    ensures |Lower(s)| == |s| && forall i :: 0 <= i < |s| ==> Lower(s)[i] == LowerChar(s[i])
  {
    if s == [] {
    } else {
      LowerAt(s[1..]);
    }
  }

  predicate IsLower(word: string) {
    forall i :: 0 <= i < |word| ==> !('A' <= word[i] <= 'Z') && word[i] != '\U{212A}'
  }

  lemma LowerSpells(name: string, word: string)
    requires IsLower(word)
    ensures Lower(name) == word <==> Spells(name, word)
  {
    LowerAt(name);
    if Spells(name, word) {
      forall i | 0 <= i < |word| ensures Lower(name)[i] == word[i] {
        assert SameLetter(name[i], word[i]);
      }
    }
    if Lower(name) == word {
      forall i | 0 <= i < |word| ensures SameLetter(name[i], word[i]) {
        assert Lower(name)[i] == word[i];
      }
    }
  }

  /** A name is a placeholder exactly when it holds a colon or is one of three words in any case. */
  lemma PlaceholderExactly(name: string)
    ensures IsPlaceholder(name) <==>
      ':' in name || Spells(name, "album") || Spells(name, "playlist") || Spells(name, "unknown context")
  {
    LowerSpells(name, "album");
    LowerSpells(name, "playlist");
    LowerSpells(name, "unknown context");
  }

  // ----- Length and time

  /** The history is the first 50 of the distinct uris by most recent play. */
  lemma HistoryIsPrefix(plays: seq<Play>)
    ensures var shown, all := Uris(Replay([], plays)), RecentUris(plays);
      shown <= all && |shown| == if |all| < 50 then |all| else 50
  {
    HistoryIsMostRecent(plays);
  }

  /** A log that keeps the history alive stores it for a day after the last play. */
  lemma HeldForADay(store: Store<History>, log: seq<TimedPlay>)
    requires Holds(store, log) && LastStoreAt(log).Some?
    ensures "recent_contexts" in store && store["recent_contexts"].expiresAt == LastStoreAt(log).value + 86_400.0
  {
  }

  // ----- The item of a context

  predicate HasRealName(p: Play, u: string) {
    p.uri == u && !IsPlaceholder(p.name)
  }

  predicate HasMetadata(p: Play, u: string) {
    p.uri == u && p.metadata != map[]
  }

  /** Play `i` is the last one of the context, and the last one of it with a real name, or with metadata. */
  ghost predicate IsLastPlay(plays: seq<Play>, u: string, i: nat) {
    i < |plays| && plays[i].uri == u && forall k :: i < k < |plays| ==> plays[k].uri != u
  }

  ghost predicate IsLastReal(plays: seq<Play>, u: string, i: nat) {
    i < |plays| && HasRealName(plays[i], u) && forall k :: i < k < |plays| ==> !HasRealName(plays[k], u)
  }

  ghost predicate IsLastWithMetadata(plays: seq<Play>, u: string, i: nat) {
    i < |plays| && HasMetadata(plays[i], u) && forall k :: i < k < |plays| ==> !HasMetadata(plays[k], u)
  }

  lemma FoundAfter(h: History, p: Play, u: string)
    requires Find(h, u).Some? && Find(Recorded(h, p), u).Some?
    ensures Find(Recorded(h, p), u) == if p.uri == u && u != "" then Some(Top(h, Find(h, u), p)) else Find(h, u)
  {
    if p.uri == "" {
    } else {
      FindTake(Moved(h, p), MAX_HISTORY, u);
      assert Moved(h, p)[1..] == Without(h, p.uri);
      if p.uri != u {
        FindWithout(h, p.uri, u);
      }
    }
  }

  /** What the last of a log of plays makes of the item of a context that stays. */
  lemma ItemAfter(h: History, plays: seq<Play>, u: string)
    requires plays != [] && Stays(h, plays, u) && u != ""
    ensures var before, p := Replay(h, plays[..|plays| - 1]), plays[|plays| - 1];
      && Stays(h, plays[..|plays| - 1], u)
      && Find(before, u).Some? && Find(Replay(h, plays), u).Some?
      && Find(Replay(h, plays), u) == if p.uri == u then Some(Top(before, Find(before, u), p)) else Find(before, u)
  {
    FoundAfter(Replay(h, plays[..|plays| - 1]), plays[|plays| - 1], u);
  }

  /** As long as a context stays in the history, its name is that of its last play with a real name. */
  lemma {:induction false} NameOfLastReal(h: History, plays: seq<Play>, u: string, i: nat)
    requires Stays(h, plays, u) && u != "" && IsLastReal(plays, u, i)
    ensures Find(Replay(h, plays), u).value.name == plays[i].name
  {
    var n := |plays| - 1;
    ItemAfter(h, plays, u);
    if i == n {
    } else {
      assert !HasRealName(plays[n], u);
      NameOfLastReal(h, plays[..n], u, i);
    }
  }

  ghost predicate NoneReal(plays: seq<Play>, u: string) {
    forall k :: 0 <= k < |plays| ==> !HasRealName(plays[k], u)
  }

  /** Without such a play, a real name from before is kept; otherwise the name is a placeholder, that of
      the last play. */
  lemma {:induction false} NameWithoutReal(h: History, plays: seq<Play>, u: string)
    requires Stays(h, plays, u) && u != "" && NoneReal(plays, u) && Find(h, u).Some?
    ensures var prior, name := Find(h, u).value.name, Find(Replay(h, plays), u).value.name;
      && (!IsPlaceholder(prior) ==> name == prior)
      && (IsPlaceholder(prior) ==> IsPlaceholder(name))
      && (IsPlaceholder(prior) ==> forall i: nat :: IsLastPlay(plays, u, i) ==> name == plays[i].name)
  {
    if plays == [] {
    } else {
      var n := |plays| - 1;
      ItemAfter(h, plays, u);
      assert !HasRealName(plays[n], u);
      NameWithoutReal(h, plays[..n], u);
      forall i: nat | IsLastPlay(plays, u, i) ensures i == n || IsLastPlay(plays[..n], u, i) {
      }
    }
  }

  /** Likewise for metadata: that of the last play that brought any, or else what was there before. */
  lemma {:induction false} MetadataExactly(h: History, plays: seq<Play>, u: string)
    requires Stays(h, plays, u) && u != "" && Find(h, u).Some?
    ensures var metadata := Find(Replay(h, plays), u).value.metadata;
      && (forall i: nat :: IsLastWithMetadata(plays, u, i) ==> metadata == plays[i].metadata)
      && ((forall k :: 0 <= k < |plays| ==> !HasMetadata(plays[k], u)) ==> metadata == Find(h, u).value.metadata)
  {
    if plays == [] {
    } else {
      var n := |plays| - 1;
      ItemAfter(h, plays, u);
      MetadataExactly(h, plays[..n], u);
      assert plays[n].uri == u ==> HasMetadata(plays[n], u) || plays[n].metadata == map[];
      forall i: nat | IsLastWithMetadata(plays, u, i) ensures i == n || IsLastWithMetadata(plays[..n], u, i) {
      }
    }
  }

  /** Type and time are those of the last play. */
  lemma {:induction false} LastPlayShows(h: History, plays: seq<Play>, u: string, i: nat)
    requires Stays(h, plays, u) && u != "" && IsLastPlay(plays, u, i)
    ensures var item := Find(Replay(h, plays), u).value;
      item.uri == u && item.kind == plays[i].kind && item.timestamp == plays[i].at
  {
    var n := |plays| - 1;
    ItemAfter(h, plays, u);
    if i == n {
    } else {
      LastPlayShows(h, plays[..n], u, i);
    }
  }
}
