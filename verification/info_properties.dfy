/**
 The exact image of the record builder: every record it builds is well formed (fixed
 player name, two-valued state and shuffle codes, never-falsy text fields, and each
 defaulted field either a truthy player value or its default), and every well-formed
 record is built from some reading of the player.
 */
module InfoProperties {
  import opened Wrappers
  import opened JsValues
  import opened NowPlaying

  /** The shape every emitted record has. */
  predicate WellFormed(i: Info) {
    && i.player == PlayerName
    && (i.state == StatePlaying || i.state == StatePaused)
    && (i.shuffle == 0 || i.shuffle == 1)
    && Truthy(i.title) && Truthy(i.artist) && Truthy(i.album)
    && (Truthy(i.cover) || i.cover == NoCover)
    && (Truthy(i.duration) || i.duration == Zero)
    && (Truthy(i.position) || i.position == Zero)
    && (Truthy(i.rating) || i.rating == Zero)
  }

  /** Every built record is well formed. */
  lemma BuildInfoWellFormed(p: Player)
    ensures WellFormed(BuildInfo(p))
  {
  }

  /** A reading of the player that reproduces a given record. */
  function SnapshotOf(i: Info): (p: Player)
    ensures p.nowPlayingItem.Some?
    ensures (i.state == StatePlaying) == (p.playbackState == PlayerPlaying)
  {
    Player(
      nowPlayingItem := Some(Item(i.title, i.artist, i.album, Some(Artwork(i.cover)), i.duration, i.rating)),
      playbackState := if i.state == StatePlaying then PlayerPlaying else Number(Finite(3.0)),
      currentPlaybackTime := i.position,
      repeatMode := i.repeat,
      shuffleMode := Bool(i.shuffle == 1))
  }

  /** Every well-formed record is the record of some reading of the player. */
  lemma BuildInfoOfSnapshot(i: Info)
    requires WellFormed(i)
    ensures BuildInfo(SnapshotOf(i)) == i
  {
  }

  /** Missing or falsy numbers become 0: a NaN playback time is reported as position 0. */
  lemma FalsyNumbersBecomeZero(p: Player)
    requires p.currentPlaybackTime == Number(NaN) || p.currentPlaybackTime == Undefined
    ensures BuildInfo(p).position == Zero
  {
  }

  /** Any falsy title, artist or album of the current item is replaced by its placeholder. */
  lemma FalsyTextBecomesPlaceholder(p: Player)
    requires p.nowPlayingItem.Some?
    ensures !Truthy(p.nowPlayingItem.value.title) ==> BuildInfo(p).title == UnknownTitle
    ensures !Truthy(p.nowPlayingItem.value.artistName) ==> BuildInfo(p).artist == UnknownArtist
    ensures !Truthy(p.nowPlayingItem.value.albumName) ==> BuildInfo(p).album == UnknownAlbum
  {
  }
}
