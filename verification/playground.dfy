/**
 The playground's demo as a client of the cache: a cache of song assets with
 room for three entries, where reading an entry does not save it from being
 evicted by later writes.
 */
module Playground {
  import opened BoundedCache

  datatype Song = LinkPark | GreenDay | ImagineDragons | Ozzy

  /** The asset file of each song. */
  function Asset(song: Song): string
  {
    match song
    case LinkPark => "linkpark.mp3"
    case GreenDay => "greenday.mp3"
    case ImagineDragons => "imaginedragons.mp3"
    case Ozzy => "ozzy.mp3"
  }

  /** The store after the first write (tick 0). */
  function OneSong(): map<Song, Entry<string>>
  {
    map[LinkPark := Entry(Asset(LinkPark), 0)]
  }

  /** The store after the second write (tick 1). */
  function TwoSongs(): map<Song, Entry<string>>
  {
    OneSong()[GreenDay := Entry(Asset(GreenDay), 1)]
  }

  /** The store after the third write (tick 2): the cache is full. */
  function ThreeSongs(): map<Song, Entry<string>>
  {
    TwoSongs()[ImagineDragons := Entry(Asset(ImagineDragons), 2)]
  }

  /** The songs kept once the fourth one is written (tick 3). */
  function AfterOzzy(): map<Song, Entry<string>>
  {
    map[GreenDay := Entry(Asset(GreenDay), 1),
        ImagineDragons := Entry(Asset(ImagineDragons), 2),
        Ozzy := Entry(Asset(Ozzy), 3)]
  }

  /** The first three writes fit in a cache of three, so nothing is evicted. */
  lemma FirstThreeSongsFit()
    ensures AfterSet(map[], LinkPark, Asset(LinkPark), 0, 3) == OneSong()
    ensures AfterSet(OneSong(), GreenDay, Asset(GreenDay), 1, 3) == TwoSongs()
    ensures AfterSet(TwoSongs(), ImagineDragons, Asset(ImagineDragons), 2, 3) == ThreeSongs()
  {
    assert TwoSongs().Keys == {LinkPark, GreenDay};
    assert ThreeSongs().Keys == {LinkPark, GreenDay, ImagineDragons};
  }

  /**
   Writing a fourth song into a full cache of three evicts the song written
   first, and the count stays at three.
   */
  lemma FourthSongEvictsFirst()
    ensures AfterSet(ThreeSongs(), Ozzy, Asset(Ozzy), 3, 3) == AfterOzzy()
    ensures LinkPark !in AfterOzzy() && |AfterOzzy()| == |ThreeSongs()|
  {
    var written := ThreeSongs()[Ozzy := Entry(Asset(Ozzy), 3)];
    assert written.Keys == {LinkPark, GreenDay, ImagineDragons, Ozzy};
    assert |written| == 4;
    assert IsOldest(written, LinkPark);
    assert DistinctStamps(written);
    assert Oldest(written) == LinkPark;
    assert AfterOzzy().Keys == {GreenDay, ImagineDragons, Ozzy};
    assert ThreeSongs().Keys == {LinkPark, GreenDay, ImagineDragons};
  }

  /**
   The demo's first part on a new cache of three: two writes, a read of the
   first song, and a third write that fills the cache.
   */
  method FillThree(cache: Cache<Song, string>) returns (linkParkAsset: string)
    requires cache.Valid() && cache.maxSize == 3
    requires cache.cache == map[] && cache.clock == 0
    modifies cache
    ensures cache.Valid() && cache.cache == ThreeSongs() && cache.clock == 3
    ensures linkParkAsset == "linkpark.mp3"
  {
    FirstThreeSongsFit();
    cache.SetSubscript(LinkPark, Some(Asset(LinkPark)));
    assert cache.cache == OneSong();
    cache.SetSubscript(GreenDay, Some(Asset(GreenDay)));
    assert cache.cache == TwoSongs();
    var read := cache.Subscript(LinkPark);
    linkParkAsset := if read.Some? then read.value else "";
    cache.SetSubscript(ImagineDragons, Some(Asset(ImagineDragons)));
  }

  /**
   The whole demo: the first part, then a fourth write that overflows the
   capacity, then a removal by assigning `None`. The song read in the first
   part is still the one written first, so it is the one evicted.
   */
  method PlaylistDemo() returns (linkParkAsset: string, linkParkLater: Option<string>,
                                 countAfterOzzy: nat, ozzyPresent: bool, finalCount: nat)
    ensures linkParkAsset == "linkpark.mp3"
    ensures linkParkLater == None
    ensures countAfterOzzy == 3
    ensures !ozzyPresent
    ensures finalCount == 2
  {
    var cache := new Cache<Song, string>(3);
    linkParkAsset := FillThree(cache);
    FourthSongEvictsFirst();
    cache.SetSubscript(Ozzy, Some(Asset(Ozzy)));
    assert cache.cache == AfterOzzy();
    linkParkLater := cache.Get(LinkPark);
    countAfterOzzy := cache.Count();
    cache.SetSubscript(Ozzy, None);
    assert cache.cache == AfterOzzy() - {Ozzy};
    RemovePresentKey(AfterOzzy(), Ozzy);
    ozzyPresent := cache.Contains(Ozzy);
    finalCount := cache.Count();
  }

  /**
   A negative `maxSize` is accepted and, like zero, bounds nothing: writing
   four distinct keys keeps all four.
   */
  method NegativeCapacityDemo() returns (count: nat)
    ensures count == 4
  {
    var cache := new Cache<Song, string>(-1);
    cache.Set(Asset(LinkPark), LinkPark);
    cache.Set(Asset(GreenDay), GreenDay);
    cache.Set(Asset(ImagineDragons), ImagineDragons);
    cache.Set(Asset(Ozzy), Ozzy);
    assert cache.cache.Keys == {LinkPark, GreenDay, ImagineDragons, Ozzy};
    count := cache.Count();
  }
}
