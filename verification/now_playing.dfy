/**
 The now-playing record the bridge emits: a total mapping from the player's fields to
 an eleven-field record with fixed defaults, built only when the socket is open.
 The record is modelled, not its JSON serialisation.
 */
module NowPlaying {
  import opened Wrappers
  import opened JsValues

  /** Artwork of the current item; `url` is a URL template as the player reports it. */
  datatype Artwork = Artwork(url: JsValue)

  /** The player's current item. A property the item lacks reads as `Undefined`. */
  datatype Item = Item(
    title: JsValue,
    artistName: JsValue,
    albumName: JsValue,
    artwork: Option<Artwork>,
    playbackDuration: JsValue,
    rating: JsValue)

  /** What the bridge reads from the player during one emission. */
  datatype Player = Player(
    nowPlayingItem: Option<Item>,
    playbackState: JsValue,
    currentPlaybackTime: JsValue,
    repeatMode: JsValue,
    shuffleMode: JsValue)

  /** The record sent to the peer. */
  datatype Info = Info(
    player: string,
    state: int,
    title: JsValue,
    artist: JsValue,
    album: JsValue,
    cover: JsValue,
    duration: JsValue,
    position: JsValue,
    rating: JsValue,
    repeat: JsValue,
    shuffle: int)

  const PlayerName: string := "Cider"
  /** The player's `playbackState` value for "playing". */
  const PlayerPlaying: JsValue := Number(Finite(2.0))
  /** The record's `state` codes. */
  const StatePlaying: int := 1
  const StatePaused: int := 2
  const UnknownTitle: JsValue := Str("Unknown Title")
  const UnknownArtist: JsValue := Str("Unknown Artist")
  const UnknownAlbum: JsValue := Str("Unknown Album")
  const NoCover: JsValue := Str("")
  const Zero: JsValue := Number(Finite(0.0))

  /** `item?.field`: the field of the current item, or `Undefined` when there is none. */
  function ItemField(item: Option<Item>, field: Item -> JsValue): (v: JsValue)
    ensures item.None? ==> v == Undefined
    ensures item.Some? ==> v == field(item.value)
  {
    match item
    case Some(it) => field(it)
    case None => Undefined
  }

  /** `item?.artwork?.url` */
  function CoverUrl(item: Option<Item>): (v: JsValue)
    ensures item.None? ==> v == Undefined
    ensures item.Some? && item.value.artwork.None? ==> v == Undefined
    ensures item.Some? && item.value.artwork.Some? ==> v == item.value.artwork.value.url
  {
    match item
    case Some(it) =>
      (match it.artwork
       case Some(a) => a.url
       case None => Undefined)
    case None => Undefined
  }

  /** `nowPlayingItem?.title` and its siblings, as the record builder reads them. */
  function TitleOf(p: Player): JsValue { ItemField(p.nowPlayingItem, (it: Item) => it.title) }
  function ArtistOf(p: Player): JsValue { ItemField(p.nowPlayingItem, (it: Item) => it.artistName) }
  function AlbumOf(p: Player): JsValue { ItemField(p.nowPlayingItem, (it: Item) => it.albumName) }
  function DurationOf(p: Player): JsValue { ItemField(p.nowPlayingItem, (it: Item) => it.playbackDuration) }
  function RatingOf(p: Player): JsValue { ItemField(p.nowPlayingItem, (it: Item) => it.rating) }

  /** The record built from one reading of the player. */
  function BuildInfo(p: Player): (r: Info)
    ensures r.player == PlayerName
    ensures r.state == StatePlaying <==> p.playbackState == PlayerPlaying
    ensures r.state == StatePaused <==> p.playbackState != PlayerPlaying
    ensures r.shuffle == 1 <==> Truthy(p.shuffleMode)
    ensures r.shuffle == 0 <==> !Truthy(p.shuffleMode)
    ensures r.repeat == p.repeatMode
    ensures Truthy(r.title) && Truthy(r.artist) && Truthy(r.album)
    ensures Truthy(TitleOf(p)) ==> r.title == TitleOf(p)
    ensures !Truthy(TitleOf(p)) ==> r.title == UnknownTitle
    ensures Truthy(ArtistOf(p)) ==> r.artist == ArtistOf(p)
    ensures !Truthy(ArtistOf(p)) ==> r.artist == UnknownArtist
    ensures Truthy(AlbumOf(p)) ==> r.album == AlbumOf(p)
    ensures !Truthy(AlbumOf(p)) ==> r.album == UnknownAlbum
    ensures Truthy(CoverUrl(p.nowPlayingItem)) ==> r.cover == CoverUrl(p.nowPlayingItem)
    ensures !Truthy(CoverUrl(p.nowPlayingItem)) ==> r.cover == NoCover
    ensures Truthy(DurationOf(p)) ==> r.duration == DurationOf(p)
    ensures !Truthy(DurationOf(p)) ==> r.duration == Zero
    ensures Truthy(RatingOf(p)) ==> r.rating == RatingOf(p)
    ensures !Truthy(RatingOf(p)) ==> r.rating == Zero
    ensures Truthy(p.currentPlaybackTime) ==> r.position == p.currentPlaybackTime
    ensures !Truthy(p.currentPlaybackTime) ==> r.position == Zero
    ensures p.nowPlayingItem.None? ==>
              r.title == UnknownTitle && r.artist == UnknownArtist && r.album == UnknownAlbum &&
              r.cover == NoCover && r.duration == Zero && r.rating == Zero
  {
    var item := p.nowPlayingItem;
    Info(
      player := PlayerName,
      state := if p.playbackState == PlayerPlaying then StatePlaying else StatePaused,
      title := Or(TitleOf(p), UnknownTitle),
      artist := Or(ArtistOf(p), UnknownArtist),
      album := Or(AlbumOf(p), UnknownAlbum),
      cover := Or(CoverUrl(item), NoCover),
      duration := Or(DurationOf(p), Zero),
      position := Or(p.currentPlaybackTime, Zero),
      rating := Or(RatingOf(p), Zero),
      repeat := p.repeatMode,
      shuffle := if Truthy(p.shuffleMode) then 1 else 0)
  }

  /** The WebSocket handle as the bridge holds it: possibly null, else with a ready state. */
  datatype Socket = NoSocket | Socket(readyState: int)

  /** `WebSocket.OPEN` in the WHATWG WebSocket interface. */
  const Open: int := 1

  predicate IsOpen(s: Socket) {
    s.Socket? && s.readyState == Open
  }

  /** One emission: the record that is sent, or nothing when the socket is null or not open. */
  function Emit(socket: Socket, p: Player): (sent: Option<Info>)
    ensures sent.Some? <==> socket.Socket? && socket.readyState == Open
    ensures socket.NoSocket? ==> sent.None?
    ensures sent.Some? ==> sent.value == BuildInfo(p)
  {
    if !IsOpen(socket) then None else Some(BuildInfo(p))
  }
}
