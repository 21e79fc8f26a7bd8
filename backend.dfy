/**
 * The song player's back end: a red-black tree of songs seen through its
 * ascending sequence of songs, plus an optional artist filter that the two
 * searches apply.
 */
module Backend {
  import opened Outcomes
  import opened Songs
  import JavaStrings

  /** The songs are in strictly ascending title order, as the tree's in-order sequence is. */
  ghost predicate Ascending(s: seq<Song>) {
    forall a, b :: 0 <= a < b < |s| ==> Before(s[a], s[b])
  }

  /** Some song of `s` has the given title. */
  ghost predicate TitleIn(s: seq<Song>, title: string) {
    exists k :: 0 <= k < |s| && s[k].title == title
  }

  /** `s` with `x` placed before the first song whose title sorts after x's. */
  function InsertByTitle(s: seq<Song>, x: Song): (r: seq<Song>)
    ensures multiset(r) == multiset(s) + multiset{x}
  {
    if s == [] then [x]
    else if Before(x, s[0]) then [x] + s
    else
      assert s == [s[0]] + s[1..];
      [s[0]] + InsertByTitle(s[1..], x)
  }

  /** `s` without the songs whose title is `title`. */
  function RemoveByTitle(s: seq<Song>, title: string): seq<Song> {
    if s == [] then []
    else (if s[0].title == title then [] else [s[0]]) + RemoveByTitle(s[1..], title)
  }

  /** A song that sorts before every song of an ascending list can go in front. */
  lemma AscendingCons(x: Song, s: seq<Song>)
    requires Ascending(s) && (s != [] ==> Before(x, s[0]))
    ensures Ascending([x] + s)
  {
    forall a, b | 0 <= a < b < |[x] + s| ensures Before(([x] + s)[a], ([x] + s)[b]) {
      if a == 0 && b > 1 {
        BeforeIsStrictTotalOrder(x, s[0], s[b - 1]);
      }
    }
  }

  /** Inserting a song whose title is new keeps the songs ascending. */
  lemma {:induction false} InsertByTitleAscending(s: seq<Song>, x: Song)
    requires Ascending(s) && !TitleIn(s, x.title)
    ensures Ascending(InsertByTitle(s, x))
    ensures s != [] ==> InsertByTitle(s, x)[0] == x || InsertByTitle(s, x)[0] == s[0]
  {
    if s != [] && !Before(x, s[0]) {
      assert s[0].title != x.title;
      CompareToProperties(x, s[0]);
      assert Ascending(s[1..]);
      forall k | 0 <= k < |s[1..]| ensures s[1..][k].title != x.title {
        assert s[1..][k] == s[k + 1];
      }
      InsertByTitleAscending(s[1..], x);
      var r := InsertByTitle(s[1..], x);
      if s[1..] != [] {
        assert Before(s[0], s[1]);
      }
      AscendingCons(s[0], r);
    } else if s != [] {
      AscendingCons(x, s);
    }
  }

  /** In an ascending list, a title occurs at one position only. */
  lemma TitleUnique(s: seq<Song>, k: nat)
    requires Ascending(s) && k < |s|
    ensures forall j :: 0 <= j < |s| && s[j].title == s[k].title ==> j == k
  {
    forall j | 0 <= j < |s| && s[j].title == s[k].title ensures j == k {
      if j < k { CompareToProperties(s[j], s[k]); }
      if k < j { CompareToProperties(s[k], s[j]); }
    }
  }

  /** Removing a title no song has changes nothing. */
  lemma {:induction false} RemoveByTitleAbsent(s: seq<Song>, title: string)
    requires forall j :: 0 <= j < |s| ==> s[j].title != title
    ensures RemoveByTitle(s, title) == s
  {
    if s != [] {
      RemoveByTitleAbsent(s[1..], title);
      assert s == [s[0]] + s[1..];
    }
  }

  /** In an ascending list, removing the title of position `k` removes exactly that song. */
  lemma {:induction false} RemoveByTitleSplit(s: seq<Song>, k: nat)
    requires Ascending(s) && k < |s|
    ensures RemoveByTitle(s, s[k].title) == s[..k] + s[k + 1..]
  {
    TitleUnique(s, k);
    if k == 0 {
      forall j | 0 <= j < |s[1..]| ensures s[1..][j].title != s[0].title {
        assert s[1..][j] == s[j + 1];
      }
      RemoveByTitleAbsent(s[1..], s[0].title);
      assert s[..0] + s[1..] == s[1..];
    } else {
      assert Ascending(s[1..]);
      assert s[1..][k - 1] == s[k];
      RemoveByTitleSplit(s[1..], k - 1);
      assert s[0].title != s[k].title;
      assert s[..k] == [s[0]] + s[1..][..k - 1];
      assert s[k + 1..] == s[1..][k..];
    }
  }

  /** After the removal no song has the title, and the rest stay ascending. */
  lemma RemoveByTitleGone(s: seq<Song>, k: nat)
    requires Ascending(s) && k < |s|
    ensures var r := RemoveByTitle(s, s[k].title);
      Ascending(r) && !TitleIn(r, s[k].title) && |r| == |s| - 1 &&
      multiset(r) == multiset(s) - multiset{s[k]}
  {
    RemoveByTitleSplit(s, k);
    TitleUnique(s, k);
    var r := s[..k] + s[k + 1..];
    assert s == s[..k] + [s[k]] + s[k + 1..];
    forall j | 0 <= j < |r| ensures r[j].title != s[k].title && (j < k ==> r[j] == s[j]) && (j >= k ==> r[j] == s[j + 1]) {
      if j < k { assert r[j] == s[j]; } else { assert r[j] == s[j + 1]; }
    }
  }

  /** The song matches the year searched for and, when there is a filter, the filter. */
  predicate Matches(song: Song, year: string, filterBy: Option<string>) {
    song.GetReleaseYear() == year &&
    (filterBy.Some? ==> JavaStrings.Contains(song.GetArtist(), JavaStrings.Trim(filterBy.value)))
  }

  /** The songs of `s` that match, in the order of `s`. */
  function Matching(s: seq<Song>, year: string, filterBy: Option<string>): (r: seq<Song>)
    ensures forall x :: x in r <==> x in s && Matches(x, year, filterBy)
    ensures |r| <= |s|
  {
    if s == [] then []
    else
      var init := s[..|s| - 1];
      assert s == init + [s[|s| - 1]];
      Matching(init, year, filterBy) + (if Matches(s[|s| - 1], year, filterBy) then [s[|s| - 1]] else [])
  }

  /** The matching songs of an ascending list are ascending. */
  lemma {:induction false} MatchingAscending(s: seq<Song>, year: string, filterBy: Option<string>)
    requires Ascending(s)
    ensures Ascending(Matching(s, year, filterBy))
  {
    if s != [] {
      var init := s[..|s| - 1];
      var last := s[|s| - 1];
      assert Ascending(init);
      MatchingAscending(init, year, filterBy);
      var m := Matching(init, year, filterBy);
      if Matches(last, year, filterBy) {
        forall a, b | 0 <= a < b < |m + [last]| ensures Before((m + [last])[a], (m + [last])[b]) {
          if b == |m| {
            assert m[a] in init;
            var j :| 0 <= j < |init| && init[j] == m[a];
            assert Before(s[j], s[|s| - 1]);
          }
        }
      }
    }
  }

  class SongPlayerBackend {
    /** The tree's songs, in its in-order (ascending title) sequence. */
    var songs: seq<Song>
    /** The artist filter; None is Java's null, meaning no filter. */
    var filterBy: Option<string>

    ghost predicate Valid()
      reads this
    {
      Ascending(songs)
    }

    /** SongPlayerBackend(): an empty tree and no filter. */
    constructor ()
      ensures Valid() && songs == [] && filterBy.None?
    {
      songs := [];
      filterBy := None;
    }

    /**
     * addSong: the tree's insert. A null song is refused with a
     * NullPointerException and a song whose title is already present with
     * an IllegalArgumentException; otherwise the song takes its place in
     * title order.
     */
    method AddSong(song: Option<Song>) returns (r: Result<()>)
      requires Valid()
      modifies this
      ensures Valid() && filterBy == old(filterBy)
      ensures song.None? ==> r == Err(NullPointer) && songs == old(songs)
      ensures song.Some? && TitleIn(old(songs), song.value.title) ==> r == Err(IllegalArgument) && songs == old(songs)
      ensures song.Some? && !TitleIn(old(songs), song.value.title) ==>
        r.Ok? && songs == InsertByTitle(old(songs), song.value) &&
        multiset(songs) == multiset(old(songs)) + multiset{song.value}
    {
      if song.None? {
        r := Err(NullPointer);
      } else if exists k :: 0 <= k < |songs| && songs[k].title == song.value.title {
        r := Err(IllegalArgument);
      } else {
        InsertByTitleAscending(songs, song.value);
        songs := InsertByTitle(songs, song.value);
        r := Ok(());
      }
    }

    /**
     * removeSong: the tree's remove. A null song is refused with a
     * NullPointerException, and an empty tree or a title that is not
     * present with an IllegalArgumentException; otherwise the song with
     * that title leaves the sequence.
     */
    method RemoveSong(song: Option<Song>) returns (r: Result<()>)
      requires Valid()
      modifies this
      ensures Valid() && filterBy == old(filterBy)
      ensures song.None? ==> r == Err(NullPointer) && songs == old(songs)
      ensures song.Some? && !TitleIn(old(songs), song.value.title) ==> r == Err(IllegalArgument) && songs == old(songs)
      ensures song.Some? && TitleIn(old(songs), song.value.title) ==>
        r.Ok? && songs == RemoveByTitle(old(songs), song.value.title) && |songs| == |old(songs)| - 1 &&
        !TitleIn(songs, song.value.title)
      ensures song.Some? && TitleIn(old(songs), song.value.title) ==>
        exists k :: 0 <= k < |old(songs)| && old(songs)[k].title == song.value.title &&
          multiset(songs) == multiset(old(songs)) - multiset{old(songs)[k]}
    {
      if song.None? {
        r := Err(NullPointer);
      } else if songs == [] {
        r := Err(IllegalArgument);
      } else if !exists k :: 0 <= k < |songs| && songs[k].title == song.value.title {
        r := Err(IllegalArgument);
      } else {
        var k :| 0 <= k < |songs| && songs[k].title == song.value.title;
        RemoveByTitleGone(songs, k);
        songs := RemoveByTitle(songs, song.value.title);
        r := Ok(());
      }
    }

    /** setAuthorFilter: the filter becomes `f` (null clears it). */
    method SetAuthorFilter(f: Option<string>)
      modifies this
      ensures GetAuthorFilter() == f && songs == old(songs)
    {
      filterBy := f;
    }

    /** getAuthorFilter: the current filter, null when there is none. */
    function GetAuthorFilter(): Option<string>
      reads this
    {
      filterBy
    }

    /** resetAuthorFilter: no filter. */
    method ResetAuthorFilter()
      modifies this
      ensures GetAuthorFilter().None? && songs == old(songs)
    {
      filterBy := None;
    }

    /**
     * searchByYear: the songs, in title order, whose release year equals
     * the trimmed `year` and, with a filter set, whose artist contains the
     * trimmed filter. A null `year` fails with a NullPointerException as
     * soon as there is a song to compare.
     */
    method SearchByYear(year: Option<string>) returns (r: Result<seq<Song>>)
      requires Valid()
      ensures year.None? ==> r == if songs == [] then Ok([]) else Err(NullPointer)
      ensures year.Some? ==> r == Ok(Matching(songs, JavaStrings.Trim(year.value), filterBy))
      ensures r.Ok? ==> Ascending(r.value)
    {
      var resultList: seq<Song> := [];
      var k := 0;
      while k < |songs|
        invariant 0 <= k <= |songs|
        invariant year.None? ==> k == 0 && resultList == []
        invariant year.Some? ==> resultList == Matching(songs[..k], JavaStrings.Trim(year.value), filterBy)
      {
        var currSong := songs[k];
        if year.None? {
          return Err(NullPointer);
        }
        var songYear := currSong.GetReleaseYear();
        if songYear == JavaStrings.Trim(year.value) {
          if filterBy.Some? {
            if JavaStrings.Contains(currSong.GetArtist(), JavaStrings.Trim(filterBy.value)) {
              resultList := resultList + [currSong];
            }
          } else {
            resultList := resultList + [currSong];
          }
        }
        assert songs[..k + 1][..k] == songs[..k];
        k := k + 1;
      }
      assert songs[..k] == songs;
      if year.Some? {
        MatchingAscending(songs, JavaStrings.Trim(year.value), filterBy);
      }
      r := Ok(resultList);
    }

    /**
     * searchByName: the song titled `word`; NoSuchElementException when no
     * song has that title, or when a filter is set and the song's artist is
     * not exactly the filter. A null `word` reaches compareTo, which throws
     * NullPointerException as soon as the tree has a node to compare with;
     * an empty tree reports NoSuchElementException without comparing.
     */
    function SearchByName(word: Option<string>): (r: Result<Song>)
      reads this
      requires Valid()
      ensures word.None? ==> r == (if songs == [] then Err(NoSuchElement) else Err(NullPointer))
      ensures word.Some? ==> (r.Ok? <==> (TitleIn(songs, word.value) &&
        (filterBy.Some? ==> exists k :: 0 <= k < |songs| && songs[k].title == word.value && songs[k].artist == filterBy.value)))
      ensures r.Ok? ==> word.Some? && r.value in songs && r.value.title == word.value
      ensures word.Some? && r.Err? ==> r.error == NoSuchElement
    {
      if word.None? then (if songs == [] then Err(NoSuchElement) else Err(NullPointer))
      else if !exists k :: 0 <= k < |songs| && songs[k].title == word.value then Err(NoSuchElement)
      else
        var k :| 0 <= k < |songs| && songs[k].title == word.value;
        TitleUnique(songs, k);
        if filterBy.Some? && songs[k].GetArtist() != filterBy.value then Err(NoSuchElement)
        else Ok(songs[k])
    }
  }
}
