/** What literal URIs mean, spelled out character by character (core/src/spotify_uri.rs). */
module SpotifyUriLaws {
  import opened Wrappers
  import opened Powers
  import opened Base62
  import opened SpotifyIds
  import opened SpotifyUris

  // ----- The scheme

  /** A string is rejected for its root exactly when the text before its first colon is not "spotify". */
  lemma InvalidRootExactly(s: string)
    ensures Meaning(Split(s)) == Err(InvalidRoot) <==> !(s == "spotify" || "spotify:" <= s)
  {
    RootMeans(s);
    if s == "spotify" {
      SplitOne(s);
    } else if "spotify:" <= s {
      RootSplit(s);
    } else if Split(s)[0] == "spotify" {
      FirstPartIsPrefix(s);
    }
  }

  lemma RootSplit(s: string)
    requires "spotify:" <= s
    ensures Split(s)[0] == "spotify"
  {
    var rest := s[|"spotify:"|..];
    assert s == Colon("spotify", rest);
    SplitStep("spotify", rest);
  }

  lemma FirstPartIsPrefix(s: string)
    ensures s == Split(s)[0] || Split(s)[0] + ":" <= s
  {
    var i := FirstColon(s, 0);
    if i < |s| {
      assert s == s[..i] + ":" + s[i + 1..];
    }
  }

  lemma RootMeans(s: string)
    ensures Meaning(Split(s)) == Err(InvalidRoot) <==> Split(s)[0] != "spotify"
  {
  }

  // ----- Parts in front of the item

  function Plain(kind: string, rest: string): string {
    "spotify:" + kind + ":" + rest
  }

  function Named(user: string, kind: string, rest: string): string {
    "spotify:user:" + user + ":" + kind + ":" + rest
  }

  lemma PlainColons(kind: string, rest: string)
    ensures Plain(kind, rest) == Colon("spotify", Colon(kind, rest))
  {
  }

  lemma NamedColons(user: string, kind: string, rest: string)
    ensures Named(user, kind, rest) == Colon("spotify", Colon("user", Colon(user, Colon(kind, rest))))
  {
    assert "spotify:user:" == "spotify" + ":" + "user" + ":";
    Regroup(user, kind, rest);
  }

  lemma Regroup(user: string, kind: string, rest: string)
    ensures "spotify" + ":" + "user" + ":" + user + ":" + kind + ":" + rest ==
            "spotify" + ":" + ("user" + ":" + (user + ":" + (kind + ":" + rest)))
  {
    var a, b := "spotify" + ":", "user" + ":";
    Associate(a, b, user + ":" + (kind + ":" + rest));
    Associate(a + b, user + ":", kind + ":" + rest);
    Associate(a + b + (user + ":"), kind + ":", rest);
    Associate(a + b, user, ":");
    Associate(a + b + user + ":", kind, ":");
    Associate(a, "user", ":");
  }

  lemma Associate(a: string, b: string, c: string)
    ensures a + b + c == a + (b + c)
  {
  }

  lemma PlainSplit(kind: string, rest: string)
    requires ColonFree(kind)
    ensures Split(Plain(kind, rest)) == ["spotify", kind] + Split(rest)
  {
    PlainColons(kind, rest);
    SplitTwo("spotify", kind, rest);
  }

  lemma FourParts(user: string, kind: string, fields: seq<string>)
    ensures ["spotify", "user"] + ([user, kind] + fields) == ["spotify", "user", user, kind] + fields
  {
  }

  lemma ColonsSplit(user: string, kind: string, rest: string)
    requires ColonFree(user) && ColonFree(kind)
    ensures Split(Colon("spotify", Colon("user", Colon(user, Colon(kind, rest))))) ==
      ["spotify", "user", user, kind] + Split(rest)
  {
    SplitTwo("spotify", "user", Colon(user, Colon(kind, rest)));
    SplitTwo(user, kind, rest);
    FourParts(user, kind, Split(rest));
  }

  lemma NamedSplit(user: string, kind: string, rest: string)
    requires ColonFree(user) && ColonFree(kind)
    ensures Split(Named(user, kind, rest)) == ["spotify", "user", user, kind] + Split(rest)
  {
    NamedColons(user, kind, rest);
    ColonsSplit(user, kind, rest);
  }

  lemma UserParts(user: string, kind: string, fields: seq<string>)
    requires fields != []
    ensures Meaning(["spotify", "user", user, kind] + fields) == Item(Some(user), kind, fields)
  {
    assert (["spotify", "user", user, kind] + fields)[4..] == fields;
  }

  lemma KindParts(kind: string, fields: seq<string>)
    requires fields != [] && kind != "user"
    ensures Meaning(["spotify", kind] + fields) == Item(None, kind, fields)
  {
    assert (["spotify", kind] + fields)[2..] == fields;
  }

  /** What a name and further parts mean for a kind, with or without a user in front. */
  lemma KindMeans(user: string, kind: string, rest: string)
    requires ColonFree(user) && ColonFree(kind) && kind != "user"
    ensures Meaning(Split(Plain(kind, rest))) == Item(None, kind, Split(rest))
    ensures Meaning(Split(Named(user, kind, rest))) == Item(Some(user), kind, Split(rest))
  {
    PlainSplit(kind, rest);
    KindParts(kind, Split(rest));
    NamedSplit(user, kind, rest);
    UserParts(user, kind, Split(rest));
  }

  // ----- The six kinds with an id

  /** `{id}`, alone or followed by a colon and anything. */
  predicate StartsWith(rest: string, name: string) {
    rest == name || name + ":" <= rest
  }

  lemma FirstPart(rest: string, name: string)
    requires ColonFree(name) && StartsWith(rest, name)
    ensures Split(rest)[0] == name
  {
    if rest == name {
      SplitOne(name);
    } else {
      assert rest == Colon(name, rest[|name| + 1..]);
      SplitStep(name, rest[|name| + 1..]);
    }
  }

  lemma IdBehind(user: string, kind: string, rest: string, id: Id)
    requires ColonFree(user) && ColonFree(kind) && kind in ID_KINDS && kind != "user"
    requires StartsWith(rest, Encode(id))
    ensures Meaning(Split(Plain(kind, rest))) == WithId(kind, None, id)
    ensures Meaning(Split(Named(user, kind, rest))) == WithId(kind, Some(user), id)
  {
    KindMeans(user, kind, rest);
    EncodedColonFree(id);
    FirstPart(rest, Encode(id));
  }

  /** The kinds with an id and no user, with the value for an id. */
  predicate IdKind(kind: string, id: Id, u: SpotifyUri) {
    (kind, u) in [("album", Album(id)), ("artist", Artist(id)), ("episode", Episode(id)),
                  ("show", Show(id)), ("track", Track(id))]
  }

  lemma IdKindMeans(kind: string, id: Id, u: SpotifyUri, user: Option<string>)
    requires IdKind(kind, id, u)
    ensures kind in ID_KINDS && kind != "user" && ColonFree(kind) && WithId(kind, user, id) == Ok(u)
    ensures u.ToUri() == Colon("spotify", Colon(kind, Encode(id)))
  {
  }

  /** The URIs of albums, artists, episodes, shows and tracks: what they parse to, with a user in front
      or not and whatever follows the id, and what is printed. */
  lemma IdUris(user: string, kind: string, rest: string, id: Id, u: SpotifyUri)
    requires ColonFree(user) && StartsWith(rest, Encode(id)) && IdKind(kind, id, u)
    ensures Meaning(Split(Plain(kind, rest))) == Ok(u) && Meaning(Split(Named(user, kind, rest))) == Ok(u)
    ensures u.ToUri() == Plain(kind, Encode(id))
  {
    IdKindMeans(kind, id, u, None);
    IdKindMeans(kind, id, u, Some(user));
    IdBehind(user, kind, rest, id);
    PlainColons(kind, Encode(id));
  }

  lemma PlaylistPrinted(user: string, id: Id)
    ensures Playlist(None, id).ToUri() == Plain("playlist", Encode(id))
    ensures Playlist(Some(user), id).ToUri() == Named(user, "playlist", Encode(id))
  {
    PlainColons("playlist", Encode(id));
    NamedColons(user, "playlist", Encode(id));
  }

  /** The URIs of playlists, which alone keep the user. */
  lemma PlaylistUris(user: string, rest: string, id: Id)
    requires ColonFree(user) && StartsWith(rest, Encode(id))
    ensures Meaning(Split(Plain("playlist", rest))) == Ok(Playlist(None, id))
    ensures Meaning(Split(Named(user, "playlist", rest))) == Ok(Playlist(Some(user), id))
  {
    IdBehind(user, "playlist", rest, id);
  }

  /** A name that is not an id is rejected for each of the six kinds. */
  lemma BadIds(user: string, kind: string, name: string, rest: string)
    requires ColonFree(user) && kind in ["album", "artist", "episode", "playlist", "show", "track"]
    requires ColonFree(name) && Decode(name).Err? && StartsWith(rest, name)
    ensures Meaning(Split(Plain(kind, rest))) == Err(BadId(InvalidId))
    ensures Meaning(Split(Named(user, kind, rest))) == Err(BadId(InvalidId))
  {
    KindMeans(user, kind, rest);
    FirstPart(rest, name);
  }

  // ----- Local files, other kinds and missing parts

  lemma LocalUris(artist: string, album: string, title: string, secs: string, more: seq<string>)
    ensures var r := Meaning(["spotify", "local", artist, album, title, secs] + more);
      match ParseU64(secs)
      case Some(n) => r == Ok(Local(artist, album, title, Duration(n, 0)))
      case None => r == Err(InvalidFormat)
  {
    var fields := [artist, album, title, secs] + more;
    assert ["spotify", "local", artist, album, title, secs] + more == ["spotify", "local"] + fields;
    KindParts("local", fields);
  }

  lemma LocalPrinted(artist: string, album: string, title: string, d: Duration)
    ensures Local(artist, album, title, d).ToUri() ==
      Plain("local", artist + ":" + (album + ":" + (title + ":" + Decimal(d.secs))))
  {
    PlainColons("local", artist + ":" + (album + ":" + (title + ":" + Decimal(d.secs))));
  }

  /** Any other kind is kept when it is parsed, and printed as "unknown". */
  lemma UnknownUris(user: string, kind: string, name: string, rest: string)
    requires ColonFree(user) && ColonFree(kind) && ColonFree(name) && StartsWith(rest, name)
    requires kind !in ["album", "artist", "episode", "playlist", "show", "track", "local", "user"]
    ensures Meaning(Split(Plain(kind, rest))) == Ok(Unknown(kind, name))
    ensures Meaning(Split(Named(user, kind, rest))) == Ok(Unknown(kind, name))
    ensures Unknown(kind, name).ToUri() == Plain("unknown", name)
  {
    KindMeans(user, kind, rest);
    FirstPart(rest, name);
    OtherKind(user, kind, Split(rest));
    PlainColons("unknown", name);
  }

  lemma OtherKind(user: string, kind: string, fields: seq<string>)
    requires fields != []
    requires kind !in ["album", "artist", "episode", "playlist", "show", "track", "local"]
    ensures Item(None, kind, fields) == Item(Some(user), kind, fields) == Ok(Unknown(kind, fields[0]))
  {
    assert kind !in ID_KINDS && kind != "local";
  }

  /** Missing parts are a format error. */
  lemma TooFewParts(user: string, kind: string, artist: string, album: string, title: string)
    ensures Meaning(["spotify"]) == Meaning(["spotify", kind]) == Err(InvalidFormat)
    ensures Meaning(["spotify", "user", user]) == Meaning(["spotify", "user", user, kind]) == Err(InvalidFormat)
    ensures Meaning(["spotify", "local", artist]) == Meaning(["spotify", "local", artist, album])
         == Meaning(["spotify", "local", artist, album, title]) == Err(InvalidFormat)
  {
  }

  // ----- Durations

  predicate SpellsDecimal(s: string, ds: seq<nat>) {
    |ds| == |s| && forall i :: 0 <= i < |s| ==> ds[i] < 10 && s[i] == "0123456789"[ds[i]]
  }

  lemma {:induction false} DecimalIsWeighted(s: string, ds: seq<nat>)
    requires IsDecimal(s) && SpellsDecimal(s, ds)
    ensures DecimalValue(s) == Weighted(10, ds)
  {
    if s == [] {
    } else {
      var n := |s| - 1;
      DecimalIsWeighted(s[..n], ds[..n]);
      WeightedLast(10, ds[..n], ds[n]);
      assert ds == ds[..n] + [ds[n]];
      Numbers(ds[n]);
    }
  }

  lemma SpelledDecimal(s: string, ds: seq<nat>)
    requires SpellsDecimal(s, ds)
    ensures IsDecimal(s) && DecimalValue(s) == Weighted(10, ds)
  {
    forall i | 0 <= i < |s| ensures '0' <= s[i] <= '9' {
      Numbers(ds[i]);
    }
    DecimalIsWeighted(s, ds);
  }

  lemma DecimalSpelledBy(s: string) returns (ds: seq<nat>)
    requires IsDecimal(s)
    ensures SpellsDecimal(s, ds)
  {
    ds := seq(|s|, i requires 0 <= i < |s| => (s[i] - '0') as nat);
    forall i | 0 <= i < |s| ensures ds[i] < 10 && s[i] == "0123456789"[ds[i]] {
      Numbers(ds[i]);
    }
  }

  /** Decimal digits of the number, possibly after a plus sign. */
  predicate WritesDuration(s: string, ds: seq<nat>, n: nat) {
    ds != [] && Weighted(10, ds) == n && (SpellsDecimal(s, ds) || ("+" <= s && SpellsDecimal(s[1..], ds)))
  }

  /** A duration is a number below 2^64 in decimal digits, possibly after a plus sign. */
  lemma ParseU64Exactly(s: string, n: nat)
    ensures ParseU64(s) == Some(n) <==> n < U64_LIMIT && exists ds :: WritesDuration(s, ds, n)
  {
    var digits := if "+" <= s then s[1..] else s;
    if ParseU64(s) == Some(n) {
      var ds := DecimalSpelledBy(digits);
      SpelledDecimal(digits, ds);
      assert WritesDuration(s, ds, n);
    }
    if ds :| WritesDuration(s, ds, n) {
      if SpellsDecimal(s, ds) {
        Numbers(ds[0]);
        SpelledDecimal(s, ds);
      } else {
        SpelledDecimal(s[1..], ds);
      }
    }
  }

  /** A printed duration has no sign and no leading zero. */
  lemma {:induction false} PlainDecimal(n: nat)
    ensures '0' <= Decimal(n)[0] <= '9' && (Decimal(n)[0] == '0' ==> Decimal(n) == "0" && n == 0)
  {
    if n < 10 {
    } else {
      PlainDecimal(n / 10);
    }
  }
}
