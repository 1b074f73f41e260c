/** Spotify URIs: the colon-separated parser and printer (core/src/spotify_uri.rs). */
module SpotifyUris {
  import opened Wrappers
  import opened Base62
  import opened SpotifyIds

  type Id = n: nat | n < U128_LIMIT
  type Seconds = n: nat | n < U64_LIMIT

  datatype Duration = Duration(secs: Seconds, nanos: nat)

  datatype UriError = InvalidFormat | InvalidRoot | BadId(error: IdError)

  datatype SpotifyUri =
    | Album(id: Id)
    | Artist(id: Id)
    | Episode(id: Id)
    | Playlist(user: Option<string>, id: Id)
    | Show(id: Id)
    | Track(id: Id)
    | Local(artist: string, albumTitle: string, trackTitle: string, duration: Duration)
    | Unknown(kind: string, name: string)
  {
    function ItemType(): string {
      match this
      case Album(_) => "album"
      case Artist(_) => "artist"
      case Episode(_) => "episode"
      case Playlist(_, _) => "playlist"
      case Show(_) => "show"
      case Track(_) => "track"
      case Local(_, _, _, _) => "local"
      case Unknown(_, _) => "unknown"
    }

    function ToId(): string {
      match this
      case Local(artist, album, title, duration) =>
        Colon(artist, Colon(album, Colon(title, Decimal(duration.secs))))
      case Unknown(_, name) => name
      case _ => Encode(id)
    }

    function ToUri(): string {
      if Playlist? && user.Some? then
        Colon("spotify", Colon("user", Colon(user.value, Colon(ItemType(), Encode(id)))))
      else Colon("spotify", Colon(ItemType(), ToId()))
    }
  }

  /** `{a}:{rest}`. */
  function Colon(a: string, rest: string): string {
    a + ":" + rest
  }

  // ----- Splitting at colons

  predicate ColonFree(s: string) {
    ':' !in s
  }

  function FirstColon(s: string, from: nat): (i: nat)
    requires from <= |s| && ':' !in s[..from]
    ensures i <= |s| && ':' !in s[..i] && (i < |s| ==> s[i] == ':')
    decreases |s| - from
  {
    if from == |s| || s[from] == ':' then from
    else
      assert s[..from + 1] == s[..from] + [s[from]];
      FirstColon(s, from + 1)
  }

  /** `str::split(':')`. */
  function Split(s: string): (parts: seq<string>)
    ensures parts != []
    decreases |s|
  {
    var i := FirstColon(s, 0);
    if i == |s| then [s] else [s[..i]] + Split(s[i + 1..])
  }

  lemma {:induction false} SplitParts(s: string)
    ensures forall p :: p in Split(s) ==> ColonFree(p)
    decreases |s|
  {
    var i := FirstColon(s, 0);
    if i == |s| {
      assert s[..i] == s;
    } else {
      SplitParts(s[i + 1..]);
    }
  }

  lemma SplitOne(p: string)
    requires ColonFree(p)
    ensures Split(p) == [p]
  {
  }

  lemma {:induction false} FirstColonAt(s: string, from: nat, k: nat)
    requires from <= k < |s| && s[k] == ':' && ':' !in s[..k]
    ensures ':' !in s[..from] && FirstColon(s, from) == k
    decreases k - from
  {
    if from == k {
    } else {
      assert s[..k][from] == s[from];
      FirstColonAt(s, from + 1, k);
    }
    assert s[..k][..from] == s[..from];
  }

  lemma SplitStep(p: string, rest: string)
    requires ColonFree(p)
    ensures Split(Colon(p, rest)) == [p] + Split(rest)
  {
    var s := Colon(p, rest);
    assert s[..|p|] == p && s[|p|] == ':' && s[|p| + 1..] == rest;
    FirstColonAt(s, 0, |p|);
  }

  function Join(parts: seq<string>): string
    requires parts != []
  {
    if |parts| == 1 then parts[0] else Colon(parts[0], Join(parts[1..]))
  }

  predicate AllColonFree(parts: seq<string>) {
    forall p :: p in parts ==> ColonFree(p)
  }

  lemma JoinStep(p: string, parts: seq<string>)
    requires parts != []
    ensures Join([p] + parts) == Colon(p, Join(parts))
  {
    assert ([p] + parts)[1..] == parts;
  }

  lemma CutAt(s: string, i: nat)
    requires i < |s| && s[i] == ':'
    ensures Colon(s[..i], s[i + 1..]) == s
  {
  }

  lemma {:induction false} JoinSplit(s: string)
    ensures Join(Split(s)) == s
    decreases |s|
  {
    var i := FirstColon(s, 0);
    if i == |s| {
    } else {
      JoinSplit(s[i + 1..]);
      JoinStep(s[..i], Split(s[i + 1..]));
      CutAt(s, i);
    }
  }

  lemma {:induction false} SplitJoin(parts: seq<string>)
    requires parts != [] && AllColonFree(parts)
    ensures Split(Join(parts)) == parts
    decreases |parts|
  {
    assert ColonFree(parts[0]);
    if |parts| == 1 {
      SplitOne(parts[0]);
    } else {
      forall p | p in parts[1..] ensures ColonFree(p) {
        assert p in parts;
      }
      SplitJoin(parts[1..]);
      SplitStep(parts[0], Join(parts[1..]));
    }
  }

  /** The parts are the only colon-free strings that give the whole when joined by colons. */
  lemma SplitExactly(s: string, parts: seq<string>)
    requires parts != []
    ensures parts == Split(s) <==> AllColonFree(parts) && Join(parts) == s
  {
    if parts == Split(s) {
      SplitParts(s);
      JoinSplit(s);
    } else if AllColonFree(parts) {
      SplitJoin(parts);
    }
  }

  // ----- Decimal numbers

  function DecimalDigit(d: nat): char
    requires d < 10
  {
    '0' + d as char
  }

  function Decimal(n: nat): (s: string)
    ensures s != []
  {
    if n < 10 then [DecimalDigit(n)] else Decimal(n / 10) + [DecimalDigit(n % 10)]
  }

  predicate IsDecimal(s: string) {
    forall i :: 0 <= i < |s| ==> '0' <= s[i] <= '9'
  }

  function DecimalValue(s: string): nat
    requires IsDecimal(s)
  {
    if s == [] then 0 else DecimalValue(s[..|s| - 1]) * 10 + (s[|s| - 1] - '0') as nat
  }

  /** `u64::from_str`: an optional plus sign, then at least one digit, below 2^64. */
  function ParseU64(s: string): Option<Seconds> {
    var digits := if s != [] && s[0] == '+' then s[1..] else s;
    if digits != [] && IsDecimal(digits) && DecimalValue(digits) < U64_LIMIT then Some(DecimalValue(digits))
    else None
  }

  lemma {:induction false} DecimalRoundTrip(n: nat)
    ensures IsDecimal(Decimal(n)) && DecimalValue(Decimal(n)) == n
  {
    if n < 10 {
      assert Decimal(n)[..0] == [];
    } else {
      DecimalRoundTrip(n / 10);
      assert Decimal(n)[..|Decimal(n)| - 1] == Decimal(n / 10);
    }
  }

  lemma ParseDecimal(n: Seconds)
    ensures ParseU64(Decimal(n)) == Some(n) && ColonFree(Decimal(n))
  {
    DecimalRoundTrip(n);
    var s := Decimal(n);
    assert '0' <= s[0] <= '9';
    forall c | c in s ensures c != ':' {
      var i :| 0 <= i < |s| && s[i] == c;
    }
  }

  // ----- What a URI means, by its parts

  function WithId(kind: string, user: Option<string>, id: Id): Result<SpotifyUri, UriError>
    requires kind in ID_KINDS
  {
    if kind == "album" then Ok(Album(id))
    else if kind == "artist" then Ok(Artist(id))
    else if kind == "episode" then Ok(Episode(id))
    else if kind == "playlist" then Ok(Playlist(user, id))
    else if kind == "show" then Ok(Show(id))
    else Ok(Track(id))
  }

  const ID_KINDS: set<string> := {"album", "artist", "episode", "playlist", "show", "track"}

  /** The item that `kind` and the parts after it denote. */
  function Item(user: Option<string>, kind: string, fields: seq<string>): Result<SpotifyUri, UriError>
    requires fields != []
  {
    if kind in ID_KINDS then
      match Decode(fields[0])
      case Ok(id) => WithId(kind, user, id)
      case Err(e) => Err(BadId(e))
    else if kind == "local" then
      if |fields| < 4 || ParseU64(fields[3]).None? then Err(InvalidFormat)
      else Ok(Local(fields[0], fields[1], fields[2], Duration(ParseU64(fields[3]).value, 0)))
    else Ok(Unknown(kind, fields[0]))
  }

  /** `spotify:{kind}:{fields}` or `spotify:user:{user}:{kind}:{fields}`. */
  function Meaning(parts: seq<string>): Result<SpotifyUri, UriError>
    requires parts != []
  {
    if parts[0] != "spotify" then Err(InvalidRoot)
    else if |parts| >= 2 && parts[1] == "user" then
      if |parts| < 5 then Err(InvalidFormat) else Item(Some(parts[2]), parts[3], parts[4..])
    else if |parts| < 3 then Err(InvalidFormat)
    else Item(None, parts[1], parts[2..])
  }

  /** The iterator `src.split(':')`, stepped by `next`. */
  class Parts {
    var rest: seq<string>

    constructor (src: string)
      ensures rest == Split(src)
    {
      rest := Split(src);
    }

    method Next() returns (part: Option<string>)
      modifies this
      ensures old(rest) == [] ==> part == None && rest == []
      ensures old(rest) != [] ==> part == Some(old(rest)[0]) && rest == old(rest)[1..]
    {
      if rest == [] {
        return None;
      }
      part := Some(rest[0]);
      rest := rest[1..];
    }
  }

  /** `SpotifyUri::from_uri`. */
  method FromUri(src: string) returns (r: Result<SpotifyUri, UriError>)
    ensures r == Meaning(Split(src))
  {
    ghost var all := Split(src);
    var parts := new Parts(src);
    var scheme := parts.Next();
    if scheme.None? {
      return Err(InvalidFormat);
    }
    if scheme.value != "spotify" {
      return Err(InvalidRoot);
    }
    var username: Option<string> := None;
    var itemType := parts.Next();
    if itemType.None? {
      return Err(InvalidFormat);
    }
    if itemType.value == "user" {
      username := parts.Next();
      if username.None? {
        return Err(InvalidFormat);
      }
      itemType := parts.Next();
      if itemType.None? {
        return Err(InvalidFormat);
      }
    }
    ghost var fields := parts.rest;
    var name := parts.Next();
    if name.None? {
      return Err(InvalidFormat);
    }
    assert fields == if all[1] == "user" then all[4..] else all[2..];
    if itemType.value in ID_KINDS {
      var id := FromBase62(name.value);
      match id {
        case Err(e) => return Err(BadId(e));
        case Ok(n) => return WithId(itemType.value, username, n);
      }
    } else if itemType.value == "local" {
      var albumTitle := parts.Next();
      if albumTitle.None? {
        return Err(InvalidFormat);
      }
      var trackTitle := parts.Next();
      if trackTitle.None? {
        return Err(InvalidFormat);
      }
      var duration := parts.Next();
      if duration.None? || ParseU64(duration.value).None? {
        return Err(InvalidFormat);
      }
      return Ok(Local(name.value, albumTitle.value, trackTitle.value, Duration(ParseU64(duration.value).value, 0)));
    } else {
      return Ok(Unknown(itemType.value, name.value));
    }
  }

  // ----- Printing and parsing

  /** The values that come back unchanged from their printed form. */
  predicate Printable(u: SpotifyUri) {
    match u
    case Playlist(Some(user), _) => ColonFree(user)
    case Local(artist, album, title, duration) =>
      ColonFree(artist) && ColonFree(album) && ColonFree(title) && duration.nanos == 0
    case Unknown(kind, name) => kind == "unknown" && ColonFree(name)
    case _ => true
  }

  lemma EncodedColonFree(id: Id)
    ensures ColonFree(Encode(id)) && Decode(Encode(id)) == Ok(id)
  {
    DecodeEncode(id);
    var s := Encode(id);
    forall c | c in s ensures c != ':' {
      var i :| 0 <= i < |s| && s[i] == c;
      assert DigitOf(s[i]).Some?;
    }
  }

  lemma SplitTwo(a: string, b: string, rest: string)
    requires ColonFree(a) && ColonFree(b)
    ensures Split(Colon(a, Colon(b, rest))) == [a, b] + Split(rest)
  {
    SplitStep(b, rest);
    SplitStep(a, Colon(b, rest));
  }

  /** How the printed form splits: the tag first, then the fields, whatever they contain. */
  lemma PrintedParts(u: SpotifyUri)
    ensures u.Playlist? && u.user.Some? ==>
      Split(u.ToUri()) == ["spotify", "user"] + Split(Colon(u.user.value, Colon("playlist", Encode(u.id))))
    ensures !(u.Playlist? && u.user.Some?) ==>
      Split(u.ToUri()) == ["spotify", u.ItemType()] + Split(u.ToId())
  {
    if u.Playlist? && u.user.Some? {
      SplitTwo("spotify", "user", Colon(u.user.value, Colon("playlist", Encode(u.id))));
    } else {
      SplitTwo("spotify", u.ItemType(), u.ToId());
    }
  }

  lemma LocalParts(artist: string, album: string, title: string, secs: Seconds)
    requires ColonFree(artist) && ColonFree(album) && ColonFree(title)
    ensures Split(Colon(artist, Colon(album, Colon(title, Decimal(secs))))) == [artist, album, title, Decimal(secs)]
  {
    ParseDecimal(secs);
    SplitOne(Decimal(secs));
    SplitStep(title, Decimal(secs));
    SplitTwo(artist, album, Colon(title, Decimal(secs)));
  }

  lemma NamedPlaylist(user: string, id: Id)
    requires ColonFree(user)
    ensures Meaning(["spotify", "user"] + Split(Colon(user, Colon("playlist", Encode(id))))) ==
      Ok(Playlist(Some(user), id))
  {
    EncodedColonFree(id);
    SplitOne(Encode(id));
    SplitTwo(user, "playlist", Encode(id));
    var parts := ["spotify", "user", user, "playlist", Encode(id)];
    assert parts[4..] == [Encode(id)];
  }

  lemma PlainParts(kind: string, name: string)
    requires kind != "user"
    ensures Meaning(["spotify", kind] + Split(name)) == Item(None, kind, Split(name))
  {
  }

  lemma IdBack(u: SpotifyUri)
    requires !u.Local? && !u.Unknown? && (u.Playlist? ==> u.user.None?)
    ensures Item(None, u.ItemType(), Split(u.ToId())) == Ok(u)
  {
    EncodedColonFree(u.id);
    SplitOne(Encode(u.id));
  }

  lemma LocalItem(artist: string, album: string, title: string, secs: Seconds)
    ensures Item(None, "local", [artist, album, title, Decimal(secs)]) ==
      Ok(Local(artist, album, title, Duration(secs, 0)))
  {
    ParseDecimal(secs);
    assert "local" !in ID_KINDS;
  }

  lemma LocalBack(u: SpotifyUri)
    requires u.Local? && Printable(u)
    ensures Item(None, u.ItemType(), Split(u.ToId())) == Ok(u)
  {
    LocalParts(u.artist, u.albumTitle, u.trackTitle, u.duration.secs);
    LocalItem(u.artist, u.albumTitle, u.trackTitle, u.duration.secs);
  }

  lemma UnknownBack(u: SpotifyUri)
    requires u.Unknown? && Printable(u)
    ensures Item(None, u.ItemType(), Split(u.ToId())) == Ok(u)
  {
  }

  /** A printable value comes back from its printed form. */
  lemma PrintableRoundTrip(u: SpotifyUri)
    requires Printable(u)
    ensures Meaning(Split(u.ToUri())) == Ok(u)
  {
    PrintedParts(u);
    if u.Playlist? && u.user.Some? {
      NamedPlaylist(u.user.value, u.id);
    } else {
      PlainParts(u.ItemType(), u.ToId());
      match u
      case Local(_, _, _, _) => LocalBack(u);
      case Unknown(_, _) => UnknownBack(u);
      case _ => IdBack(u);
    }
  }

  /** Every parsed value is printable, up to the kind of an `Unknown`. */
  lemma ParsedIsPrintable(s: string)
    requires Meaning(Split(s)).Ok?
    ensures var u := Meaning(Split(s)).value;
      if u.Unknown? then Printable(Unknown("unknown", u.name)) else Printable(u)
  {
    SplitParts(s);
  }

  lemma UnknownItem(fields: seq<string>)
    requires fields != []
    ensures "unknown" != "user" && Item(None, "unknown", fields) == Ok(Unknown("unknown", fields[0]))
  {
  }

  lemma UnknownComesBack(u: SpotifyUri)
    requires u.Unknown?
    ensures Meaning(Split(u.ToUri())) == Ok(Unknown("unknown", Split(u.name)[0]))
  {
    PrintedParts(u);
    UnknownItem(Split(u.name));
    PlainParts(u.ItemType(), u.name);
  }

  /** A value survives printing and parsing if and only if it is printable. */
  lemma RoundTripExactly(u: SpotifyUri)
    ensures Meaning(Split(u.ToUri())) == Ok(u) <==> Printable(u)
  {
    if Printable(u) {
      PrintableRoundTrip(u);
    } else if Meaning(Split(u.ToUri())) == Ok(u) {
      ParsedIsPrintable(u.ToUri());
      if u.Unknown? {
        UnknownComesBack(u);
      }
    }
  }

  predicate ComesBack(u: SpotifyUri) {
    Meaning(Split(u.ToUri())) == Ok(u)
  }

  /** An instance: a track title with a colon. */
  lemma ColonDoesNotComeBack(artist: string, album: string, secs: Seconds)
    ensures !ComesBack(Local(artist, album, "A: B", Duration(secs, 0)))
  {
    var title := "A: B";
    assert title[1] == ':';
    RoundTripExactly(Local(artist, album, title, Duration(secs, 0)));
  }

  /** An instance: half a second. */
  lemma HalfSecondDoesNotComeBack(artist: string, album: string, title: string)
    ensures !ComesBack(Local(artist, album, title, Duration(0, 500_000_000)))
  {
    RoundTripExactly(Local(artist, album, title, Duration(0, 500_000_000)));
  }

  /** An instance: a kind that is parsed but not printed. */
  lemma OtherKindDoesNotComeBack(name: string)
    ensures !ComesBack(Unknown("meta", name))
  {
    RoundTripExactly(Unknown("meta", name));
  }

  /** Printing a parsed URI is a normal form: it is accepted again, printing what it parses to gives
      the same string, and except for `Unknown` it parses to the same value. */
  lemma PrintingNormalises(s: string)
    requires Meaning(Split(s)).Ok?
    ensures var u := Meaning(Split(s)).value;
      && var again := Meaning(Split(u.ToUri()));
      && again.Ok? && again.value.ToUri() == u.ToUri()
      && (!u.Unknown? ==> again.value == u)
  {
    var u := Meaning(Split(s)).value;
    ParsedIsPrintable(s);
    if u.Unknown? {
      PrintableRoundTrip(Unknown("unknown", u.name));
      assert u.ToUri() == Unknown("unknown", u.name).ToUri();
    } else {
      PrintableRoundTrip(u);
    }
  }
}
