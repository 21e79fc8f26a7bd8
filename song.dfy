/**
 * The catalog's record: a song with a title, a release year and an artist,
 * all kept as strings. Its natural order, used as the key order of the
 * red-black tree, looks at the title alone.
 */
module Songs {
  import JavaStrings

  datatype Song = Song(title: string, releaseYear: string, artist: string) {

    function GetTitle(): (r: string)
      ensures r == title
    {
      title
    }

    function GetReleaseYear(): (r: string)
      ensures r == releaseYear
    {
      releaseYear
    }

    function GetArtist(): (r: string)
      ensures r == artist
    {
      artist
    }

    /** setTitle: a song that differs from this one in its title only. */
    function SetTitle(t: string): (s: Song)
      ensures s.GetTitle() == t && s.GetReleaseYear() == GetReleaseYear() && s.GetArtist() == GetArtist()
    {
      this.(title := t)
    }

    /** setReleaseYear: a song that differs from this one in its release year only. */
    function SetReleaseYear(y: string): (s: Song)
      ensures s.GetTitle() == GetTitle() && s.GetReleaseYear() == y && s.GetArtist() == GetArtist()
    {
      this.(releaseYear := y)
    }

    /** setArtist: a song that differs from this one in its artist only. */
    function SetArtist(a: string): (s: Song)
      ensures s.GetTitle() == GetTitle() && s.GetReleaseYear() == GetReleaseYear() && s.GetArtist() == a
    {
      this.(artist := a)
    }

    /**
     * compareTo: the titles compared with String.compareTo (what that
     * means is stated by CompareToProperties and JavaStrings.CompareToSpec).
     */
    function CompareTo(other: Song): int {
      JavaStrings.CompareTo(title, other.title)
    }

    /** toString renders the title alone. */
    function ToString(): (r: string)
      ensures r == GetTitle()
    {
      title
    }
  }

  /** The constructor Song(songName, artistName, year): note the argument order. */
  function NewSong(songName: string, artistName: string, year: string): (s: Song)
    ensures s.GetTitle() == songName && s.GetArtist() == artistName && s.GetReleaseYear() == year
  {
    Song(songName, year, artistName)
  }

  /** `a` comes strictly before `b` in the tree's key order. */
  predicate Before(a: Song, b: Song) {
    a.CompareTo(b) < 0
  }

  /**
   * toString renders exactly the key: two songs render alike exactly when
   * compareTo finds them equal, and a new song renders as its title.
   */
  lemma ToStringIsKey(a: Song, b: Song, t: string, artist: string, year: string)
    ensures a.ToString() == b.ToString() <==> a.CompareTo(b) == 0
    ensures NewSong(t, artist, year).ToString() == t
  {
    CompareToProperties(a, b);
  }

  /** compareTo ignores artist and release year. */
  lemma CompareToReadsTitlesOnly(a: Song, b: Song, a': Song, b': Song)
    requires a.title == a'.title && b.title == b'.title
    ensures a.CompareTo(b) == a'.CompareTo(b')
  {
  }

  /** compareTo is zero exactly when the titles are equal, and swapping negates it. */
  lemma CompareToProperties(a: Song, b: Song)
    ensures a.CompareTo(b) == 0 <==> a.title == b.title
    ensures a.CompareTo(b) == -b.CompareTo(a)
  {
    JavaStrings.CompareToZeroIff(a.title, b.title);
    JavaStrings.CompareToAntisymmetric(a.title, b.title);
  }

  /** The key order is a strict total order on titles. */
  lemma BeforeIsStrictTotalOrder(a: Song, b: Song, c: Song)
    ensures !Before(a, a)
    ensures !(Before(a, b) && Before(b, a))
    ensures Before(a, b) && Before(b, c) ==> Before(a, c)
    ensures a.title == b.title || Before(a, b) || Before(b, a)
  {
    JavaStrings.LessAsymmetric(a.title, b.title);
    JavaStrings.LessTotal(a.title, b.title);
    if Before(a, b) && Before(b, c) {
      JavaStrings.LessTransitive(a.title, b.title, c.title);
    }
  }
}
