/**
  The uploaded-image list of script.js and the handlers that edit it: the
  file-type filter of `handleFiles`, the append done when a file has been
  read, the remove button, `clearAll`, `updateButtons` and the entry to
  `generatePDF`.
 */
module Uploads {
  import opened PdfLayout

  /**
    A file picked or dropped by the user: its name, its declared media type
    (`file.type`) and the picture it decodes to once read.
   */
  datatype File = File(name: string, mimeType: string, picture: Picture)

  /** An entry of `uploadedImages`: the file name and the image read from it. */
  datatype UploadedImage = UploadedImage(name: string, picture: Picture)

  /** What a click on the generate button ends with. */
  datatype Outcome =
    | Skipped                          // the list is empty: nothing happens
    | LibraryMissing                   // the PDF library is not loaded: error status
    | Saved(plan: seq<Placement>)      // the document, drawn as planned, is saved

  // ---------------------------------------------------------------------
  // The file-type filter
  // ---------------------------------------------------------------------

  /** The word the filter looks for. */
  const ImageWord: string := "image"

  /** `ImageWord` occurs in `t` starting at position `i`. */
  predicate ImageAt(t: string, i: nat) {
    i + |ImageWord| <= |t| && t[i..i + |ImageWord|] == ImageWord
  }

  /**
    `t.match('image.*')`: the string is turned into an unanchored regular
    expression, so it succeeds exactly when `image` occurs somewhere in `t`.
   */
  function IsImageType(t: string): bool
    decreases |t|
  {
    |t| >= |ImageWord| && (t[..|ImageWord|] == ImageWord || IsImageType(t[1..]))
  }

  /** A type is accepted iff `image` occurs in it, at any position. */
  lemma {:induction false} IsImageTypeIffContains(t: string)
    ensures IsImageType(t) <==> exists i: nat :: ImageAt(t, i)
    decreases |t|
  {
    if |t| >= |ImageWord| {
      var rest := t[1..];
      IsImageTypeIffContains(rest);
      forall i: nat | i + |ImageWord| <= |rest|
        ensures ImageAt(rest, i) <==> ImageAt(t, i + 1)
      {
        assert rest[i..i + |ImageWord|] == t[i + 1..i + 1 + |ImageWord|];
      }
      if IsImageType(t) {
        if t[..|ImageWord|] == ImageWord {
          assert ImageAt(t, 0);
        } else {
          var i: nat :| ImageAt(rest, i);
          assert ImageAt(t, i + 1);
        }
      }
      if i: nat :| ImageAt(t, i) {
        if i == 0 {
          assert t[..|ImageWord|] == ImageWord;
        } else {
          assert ImageAt(rest, i - 1);
        }
      }
    }
  }

  /** A type that lacks one of the letters of `image` is rejected. */
  lemma {:induction false} MissingLetterRejected(t: string, c: char)
    requires c in ImageWord && c !in t
    ensures !IsImageType(t)
    decreases |t|
  {
    if |t| >= |ImageWord| {
      assert t[..|ImageWord|] != ImageWord by {
        assert forall x :: x in t[..|ImageWord|] ==> x in t;
      }
      assert forall x :: x in t[1..] ==> x in t;
      MissingLetterRejected(t[1..], c);
    }
  }

  /** The usual image types pass the filter. */
  lemma ImageTypesAccepted()
    ensures IsImageType("image/png") && IsImageType("image/jpeg")
  {
  }

  /** Other types, and a file whose type the browser left empty, are skipped. */
  lemma OtherTypesRejected()
    ensures !IsImageType("application/pdf") && !IsImageType("text/plain") && !IsImageType("")
  {
    var pdf, text := "application/pdf", "text/plain";
    assert ImageWord[1] == 'm';
    assert forall i :: 0 <= i < |pdf| ==> pdf[i] != 'm';
    assert forall i :: 0 <= i < |text| ==> text[i] != 'm';
    MissingLetterRejected(pdf, 'm');
    MissingLetterRejected(text, 'm');
  }

  /** The match is not anchored: `image` in the middle of a type is enough. */
  lemma FilterNotAnchored()
    ensures IsImageType("application/x-image")
  {
    assert ImageAt("application/x-image", 14);
    IsImageTypeIffContains("application/x-image");
  }

  /** The files of a selection whose type passes the filter, in selection order. */
  function Accepted(files: seq<File>): seq<File>
    decreases |files|
  {
    if |files| == 0 then []
    else (if IsImageType(files[0].mimeType) then [files[0]] else []) + Accepted(files[1..])
  }

  /** Filtering a concatenation filters each part and keeps them in order. */
  lemma {:induction false} AcceptedAppend(a: seq<File>, b: seq<File>)
    ensures Accepted(a + b) == Accepted(a) + Accepted(b)
    decreases |a|
  {
    if |a| == 0 {
      assert a + b == b;
    } else {
      assert (a + b)[0] == a[0];
      assert (a + b)[1..] == a[1..] + b;
      AcceptedAppend(a[1..], b);
    }
  }

  /** A file is kept iff it was selected and its type passes; nothing else is kept. */
  lemma {:induction false} AcceptedMembers(files: seq<File>)
    ensures forall f :: f in Accepted(files) <==> f in files && IsImageType(f.mimeType)
    ensures |Accepted(files)| <= |files|
    decreases |files|
  {
    if |files| > 0 {
      AcceptedMembers(files[1..]);
      assert files == [files[0]] + files[1..];
    }
  }

  /**
    The loop of `handleFiles`: it skips every file whose type fails the
    filter and starts reading the others, in selection order.
   */
  method FilesToRead(files: seq<File>) returns (toRead: seq<File>)
    ensures toRead == Accepted(files)
  {
    toRead := [];
    if |files| == 0 {
      return;
    }
    for i := 0 to |files|
      invariant toRead == Accepted(files[..i])
    {
      assert files[..i + 1] == files[..i] + [files[i]];
      AcceptedAppend(files[..i], [files[i]]);
      if !IsImageType(files[i].mimeType) {
        continue;
      }
      toRead := toRead + [files[i]];
    }
    assert files[..|files|] == files;
  }

  // ---------------------------------------------------------------------
  // Removing one entry
  // ---------------------------------------------------------------------

  /** `splice(index, 1)`: removes the entry at `index`; an index past the end removes nothing. */
  function Splice<T>(s: seq<T>, index: nat): seq<T> {
    if index < |s| then s[..index] + s[index + 1..] else s
  }

  /**
    Splicing out an index in range deletes exactly that entry: one fewer
    entry, those before it unchanged, those after it moved up by one.
   */
  lemma SpliceRemovesOne<T>(s: seq<T>, index: nat)
    requires index < |s|
    ensures var r := Splice(s, index);
      && |r| == |s| - 1
      && (forall j :: 0 <= j < index ==> r[j] == s[j])
      && (forall j :: index <= j < |r| ==> r[j] == s[j + 1])
      && multiset(r) + multiset{s[index]} == multiset(s)
  {
    assert s == s[..index] + [s[index]] + s[index + 1..];
  }

  /** An index past the end leaves the list as it is. */
  lemma SpliceOutOfRange<T>(s: seq<T>, index: nat)
    requires index >= |s|
    ensures Splice(s, index) == s
  {
  }

  // ---------------------------------------------------------------------
  // The list and its buttons
  // ---------------------------------------------------------------------

  /** The pictures of the entries, in list order. */
  function Pictures(images: seq<UploadedImage>): seq<Picture> {
    seq(|images|, i requires 0 <= i < |images| => images[i].picture)
  }

  /**
    `uploadedImages` together with the disabled flags of the generate and
    clear buttons. `updateButtons` disables both exactly when the list is
    empty, and every handler that edits the list calls it.
   */
  class ImageList {
    var images: seq<UploadedImage>
    var generateDisabled: bool
    var clearDisabled: bool

    /** Both buttons are enabled iff the list holds at least one image. */
    ghost predicate Valid()
      reads this
    {
      && generateDisabled == (|images| == 0)
      && clearDisabled == (|images| == 0)
    }

    /** The page starts with an empty list and both buttons disabled. */
    constructor ()
      ensures Valid() && images == []
    {
      images := [];
      generateDisabled, clearDisabled := true, true;
    }

    /** `updateButtons`. */
    method UpdateButtons()
      modifies this
      ensures Valid() && images == old(images)
    {
      generateDisabled := |images| == 0;
      clearDisabled := |images| == 0;
    }

    /** The end of a file read: the image is appended and the buttons updated. */
    method Add(image: UploadedImage)
      modifies this
      ensures Valid()
      ensures images == old(images) + [image]
    {
      images := images + [image];
      UpdateButtons();
    }

    /** A click on the remove button of entry `index`. */
    method Remove(index: nat)
      modifies this
      ensures Valid()
      ensures images == Splice(old(images), index)
    {
      if index < |images| {
        images := images[..index] + images[index + 1..];
      }
      UpdateButtons();
    }

    /** `clearAll`. */
    method Clear()
      modifies this
      ensures Valid() && images == []
    {
      images := [];
      UpdateButtons();
    }

    /**
      A click on the generate button. An empty list does nothing; a missing
      PDF library ends in an error; otherwise every image is placed, in list
      order, as `Layout` plans it.
     */
    method Generate(size: PageSize, libraryLoaded: bool) returns (outcome: Outcome)
      requires libraryLoaded ==> AllDecoded(Pictures(images))
      ensures outcome == Skipped <==> |images| == 0
      ensures outcome == LibraryMissing <==> |images| > 0 && !libraryLoaded
      ensures outcome.Saved? ==> outcome.plan == Layout(size, Pictures(images))
      ensures outcome.Saved? ==> |outcome.plan| == |images|
      ensures outcome.Saved? && ValidPage(size) ==>
        forall k :: 0 <= k < |images| ==> Fits(size, outcome.plan[k])
    {
      if |images| == 0 {
        return Skipped;
      }
      if !libraryLoaded {
        return LibraryMissing;
      }
      var plan := GeneratePlan(size, Pictures(images));
      outcome := Saved(plan);
    }
  }

  /** Adding, then removing the added entry gives back the list as it was. */
  lemma AddThenRemove(images: seq<UploadedImage>, image: UploadedImage)
    ensures Splice(images + [image], |images|) == images
  {
    assert (images + [image])[..|images|] == images;
  }
}
