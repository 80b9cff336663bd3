/**
 * `findCoverRecursive` of frontend/main.js: the first image file met in a
 * depth-first, pre-order walk of a directory tree, in directory-listing order.
 * The file system is an abstract tree; a directory whose listing cannot be read
 * makes `readdirSync` throw, which ends the search with an error.
 */
module CoverSearch {
  import opened Common
  import opened Text
  import opened Paths

  /** A directory entry as `readdirSync(dir, { withFileTypes: true })` reports it. */
  datatype Entry =
    | File(name: string)
    | Dir(name: string, listing: Listing)
    | Other(name: string)          // symbolic links, sockets, devices: neither `isFile()` nor `isDirectory()`

  /** The contents of a directory, or the failure to read them. */
  datatype Listing = Entries(entries: seq<Entry>) | Unreadable

  /** `/\.(png|jpe?g)$/i`. */
  predicate IsImageName(name: string) {
    EndsWithCI(name, ".png") || EndsWithCI(name, ".jpg") || EndsWithCI(name, ".jpeg")
  }

  /** The extension is matched in any letter case, only at the end of the name, and "jpg" needs its '.'. */
  lemma ImageNameExamples()
    ensures IsImageName("Cover.JPG") && IsImageName("art.jpeg") && IsImageName("a.Png")
    ensures !IsImageName("cover.gif") && !IsImageName("jpg") && !IsImageName("cover.png.txt")
  {
    UpperJpg();
    LowerJpeg();
    MixedPng();
    GifIsNoImage();
    BareJpgIsNoImage();
    TextAfterPngIsNoImage();
  }

  lemma UpperJpg()
    ensures IsImageName("Cover.JPG")
  {
    assert "Cover.JPG"[5..] == ".JPG";
    assert Lower(".JPG") == ".jpg";
  }

  lemma LowerJpeg()
    ensures IsImageName("art.jpeg")
  {
    assert "art.jpeg"[3..] == ".jpeg";
  }

  lemma MixedPng()
    ensures IsImageName("a.Png")
  {
    assert "a.Png"[1..] == ".Png";
    assert Lower(".Png") == ".png";
  }

  lemma GifIsNoImage()
    ensures !IsImageName("cover.gif")
  {
    assert Lower("cover.gif"[5..])[1] == 'g';
    assert Lower("cover.gif"[4..])[0] == 'r';
  }

  lemma BareJpgIsNoImage()
    ensures !IsImageName("jpg")
  {
  }

  lemma TextAfterPngIsNoImage()
    ensures !IsImageName("cover.png.txt")
  {
    assert Lower("cover.png.txt"[9..])[1] == 't';
    assert Lower("cover.png.txt"[8..])[2] == 't';
  }

  /** What the walk can stop at: an image file, or a directory it cannot list. */
  datatype Stop = Image(dir: string, name: string) | Blocked(path: string)

  /** Every stop of the walk of `dir`, in the order the walk meets them. */
  function Stops(dir: string, listing: Listing): seq<Stop>
    decreases listing
  {
    match listing
    case Unreadable => [Blocked(dir)]
    case Entries(es) => EntriesStops(dir, es)
  }

  function EntriesStops(dir: string, es: seq<Entry>): seq<Stop>
    decreases es
  {
    if es == [] then []
    else EntriesStops(dir, es[..|es| - 1]) + EntryStops(dir, es[|es| - 1])
  }

  function EntryStops(dir: string, e: Entry): seq<Stop>
    decreases e
  {
    match e
    case File(name) => if IsImageName(name) then [Image(dir, name)] else []
    case Dir(name, listing) => Stops(Join(dir, name), listing)
    case Other(_) => []
  }

  /** The outcome of a walk: the first stop decides it; a walk without stops finds nothing. */
  function Outcome(stops: seq<Stop>): Result<Option<string>, string> {
    if stops == [] then Ok(None)
    else match stops[0]
      case Image(dir, name) => Ok(Some(Join(dir, name)))
      case Blocked(path) => Err(path)
  }

  /** Whether the tree holds an image file anywhere. */
  predicate HasImage(listing: Listing)
    decreases listing
  {
    listing.Entries? && exists k :: 0 <= k < |listing.entries| && EntryHasImage(listing.entries[k])
  }

  predicate EntryHasImage(e: Entry)
    decreases e
  {
    match e
    case File(name) => IsImageName(name)
    case Dir(_, listing) => HasImage(listing)
    case Other(_) => false
  }

  /** Whether every directory of the tree can be listed. */
  predicate Readable(listing: Listing)
    decreases listing
  {
    listing.Entries? && forall k :: 0 <= k < |listing.entries| ==> EntryReadable(listing.entries[k])
  }

  predicate EntryReadable(e: Entry)
    decreases e
  {
    match e
    case Dir(_, listing) => Readable(listing)
    case _ => true
  }

  /** The recursive walk, one directory per call, leaving at the first image. */
  method FindCover(dir: string, listing: Listing) returns (r: Result<Option<string>, string>)
    ensures r == Outcome(Stops(dir, listing))
    decreases listing
  {
    if listing.Unreadable? {
      return Err(dir);
    }
    var es := listing.entries;
    for i := 0 to |es|
      invariant EntriesStops(dir, es[..i]) == []
    {
      assert es[..i + 1][..i] == es[..i];
      var e := es[i];
      var full := Join(dir, e.name);
      assert EntriesStops(dir, es[..i + 1]) == EntryStops(dir, e);
      if e.File? && IsImageName(e.name) {
        OutcomeAfter(EntriesStops(dir, es[..i + 1]), EntriesStops(dir, es[i + 1..]));
        EntriesStopsSplit(dir, es, i + 1);
        return Ok(Some(full));
      } else if e.Dir? {
        var found := FindCover(full, e.listing);
        if found.Err? || found.value.Some? {
          OutcomeAfter(EntriesStops(dir, es[..i + 1]), EntriesStops(dir, es[i + 1..]));
          EntriesStopsSplit(dir, es, i + 1);
          return found;
        }
      }
    }
    assert es[..|es|] == es;
    return Ok(None);
  }

  lemma OutcomeAfter(a: seq<Stop>, b: seq<Stop>)
    requires a != []
    ensures Outcome(a + b) == Outcome(a)
  {
    assert (a + b)[0] == a[0];
  }

  lemma {:induction false} EntriesStopsConcat(dir: string, a: seq<Entry>, b: seq<Entry>)
    ensures EntriesStops(dir, a + b) == EntriesStops(dir, a) + EntriesStops(dir, b)
    decreases |b|
  {
    if b == [] {
      assert a + b == a;
    } else {
      var init, last := b[..|b| - 1], b[|b| - 1];
      EntriesStopsConcat(dir, a, init);
      assert (a + b)[..|a + b| - 1] == a + init;
      assert (a + b)[|a + b| - 1] == last;
      AppendAssoc(EntriesStops(dir, a), EntriesStops(dir, init), EntryStops(dir, last));
    }
  }

  lemma EntriesStopsSplit(dir: string, es: seq<Entry>, i: nat)
    requires i <= |es|
    ensures EntriesStops(dir, es) == EntriesStops(dir, es[..i]) + EntriesStops(dir, es[i..])
  {
    EntriesStopsConcat(dir, es[..i], es[i..]);
    assert es[..i] + es[i..] == es;
  }

  // ---- what the walk finds -----------------------------------------------------

  /** The walk stops nowhere exactly when the tree holds no image and every directory can be listed. */
  lemma {:induction false} StopsEmpty(dir: string, listing: Listing)
    ensures Stops(dir, listing) == [] <==> !HasImage(listing) && Readable(listing)
    decreases listing
  {
    if listing.Entries? {
      EntriesStopsEmpty(dir, listing.entries);
    }
  }

  lemma {:induction false} EntriesStopsEmpty(dir: string, es: seq<Entry>)
    ensures EntriesStops(dir, es) == [] <==>
      forall k :: 0 <= k < |es| ==> !EntryHasImage(es[k]) && EntryReadable(es[k])
    decreases es
  {
    if es != [] {
      var init := es[..|es| - 1];
      EntriesStopsEmpty(dir, init);
      EntryStopsEmpty(dir, es[|es| - 1]);
      assert forall k :: 0 <= k < |init| ==> init[k] == es[k];
    }
  }

  lemma {:induction false} EntryStopsEmpty(dir: string, e: Entry)
    ensures EntryStops(dir, e) == [] <==> !EntryHasImage(e) && EntryReadable(e)
    decreases e
  {
    if e.Dir? {
      StopsEmpty(Join(dir, e.name), e.listing);
    }
  }

  /** Every image the walk can stop at has a `.png`, `.jpg` or `.jpeg` name, in any letter case. */
  lemma {:induction false} StopsAreImages(dir: string, listing: Listing)
    ensures forall s :: s in Stops(dir, listing) && s.Image? ==> IsImageName(s.name)
    decreases listing
  {
    if listing.Entries? {
      EntriesStopsAreImages(dir, listing.entries);
    }
  }

  lemma {:induction false} EntriesStopsAreImages(dir: string, es: seq<Entry>)
    ensures forall s :: s in EntriesStops(dir, es) && s.Image? ==> IsImageName(s.name)
    decreases es
  {
    if es != [] {
      var e := es[|es| - 1];
      EntriesStopsAreImages(dir, es[..|es| - 1]);
      if e.Dir? {
        StopsAreImages(Join(dir, e.name), e.listing);
      }
    }
  }

  /**
   * In a tree whose directories can all be listed the search never fails, and it
   * finds nothing exactly when there is no image file anywhere; otherwise what it
   * returns is the path of an image file.
   */
  lemma FindCoverOutcome(dir: string, listing: Listing)
    ensures var r := Outcome(Stops(dir, listing));
      r == Ok(None) <==> !HasImage(listing) && Readable(listing)
    ensures var r := Outcome(Stops(dir, listing));
      Readable(listing) ==> r.Ok? && (r.value.None? <==> !HasImage(listing))
    ensures var stops := Stops(dir, listing);
      Outcome(stops).Ok? && Outcome(stops).value.Some? ==>
        stops[0].Image? && IsImageName(stops[0].name) && Outcome(stops).value.value == Join(stops[0].dir, stops[0].name)
  {
    var stops := Stops(dir, listing);
    StopsEmpty(dir, listing);
    StopsAreImages(dir, listing);
    if Readable(listing) {
      ReadableNeverBlocks(dir, listing);
    }
    if stops != [] {
      assert stops[0] in stops;
    }
  }

  lemma {:induction false} ReadableNeverBlocks(dir: string, listing: Listing)
    requires Readable(listing)
    ensures forall s :: s in Stops(dir, listing) ==> s.Image?
    decreases listing
  {
    EntriesNeverBlock(dir, listing.entries);
  }

  lemma {:induction false} EntriesNeverBlock(dir: string, es: seq<Entry>)
    requires forall k :: 0 <= k < |es| ==> EntryReadable(es[k])
    ensures forall s :: s in EntriesStops(dir, es) ==> s.Image?
    decreases es
  {
    if es != [] {
      var e := es[|es| - 1];
      EntriesNeverBlock(dir, es[..|es| - 1]);
      if e.Dir? {
        ReadableNeverBlocks(Join(dir, e.name), e.listing);
      }
    }
  }
}
