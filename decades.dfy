/** The per-decade entries of App.tsx's `generatedImages` record and the pure
    computations over it: the one-key merge every completion performs, the
    all-pending record a generation run starts from, and the completeness
    test in front of the album download. */
module Decades {
  import opened Wrappers

  /** `DECADES`: the fixed, ordered labels generation runs against. */
  const DECADES: seq<string> := ["1950s", "1960s", "1970s", "1980s", "1990s", "2000s"]

  ghost const DECADE_SET: set<string> := set d | d in DECADES

  const UNKNOWN_ERROR := "An unknown error occurred."

  /** One entry of `generatedImages`: `{status: 'pending'}`,
      `{status: 'done', url}` or `{status: 'error', error}`. */
  datatype Image = Pending | Done(url: string) | Error(message: string)

  /** The value a rejected call throws: an `Error` object or anything else. */
  datatype Thrown = ErrorValue(message: string) | OtherValue

  /** How one `generateDecadeImage` call settles. */
  datatype Outcome = Resolved(url: string) | Rejected(reason: Thrown)

  lemma DecadesDistinct()
    ensures forall i, j | 0 <= i < j < |DECADES| :: DECADES[i] != DECADES[j]
    ensures |DECADE_SET| == |DECADES|
  {
    assert DECADE_SET == {"1950s", "1960s", "1970s", "1980s", "1990s", "2000s"};
  }

  /** The entry a settled call leaves behind (the `try` and its `catch`):
      never `Pending`; `Done` with the url exactly when the call resolved;
      after a rejection, `Error` with the thrown `Error`'s message, or with
      "An unknown error occurred." for any other thrown value. */
  function Settled(o: Outcome): (img: Image)
    ensures img != Pending
    ensures img.Done? <==> o.Resolved?
    ensures o.Resolved? ==> img == Done(o.url)
    ensures o.Rejected? && o.reason.ErrorValue? ==> img == Error(o.reason.message)
    ensures o == Rejected(OtherValue) ==> img == Error(UNKNOWN_ERROR)
  {
    match o
    case Resolved(u) => Done(u)
    case Rejected(ErrorValue(m)) => Error(m)
    case Rejected(OtherValue) => Error(UNKNOWN_ERROR)
  }

  /** `{...prev, [decade]: img}`: `decade` gets `img`, every other key keeps
      its entry, and no other key appears or disappears. */
  function Merge(m: map<string, Image>, decade: string, img: Image): (r: map<string, Image>)
    ensures r.Keys == m.Keys + {decade}
    ensures decade in r && r[decade] == img
    ensures forall k | k in m && k != decade :: r[k] == m[k]
  {
    m[decade := img]
  }

  /** `initialImages`, filled by the `forEach` over `decades`: one `Pending`
      entry per label and no other key. */
  method InitialImages(decades: seq<string>) returns (m: map<string, Image>)
    ensures m.Keys == set d | d in decades
    ensures forall d | d in m :: m[d] == Pending
  {
    m := map[];
    var i := 0;
    while i < |decades|
      invariant 0 <= i <= |decades|
      invariant m.Keys == set d | d in decades[..i]
      invariant forall d | d in m :: m[d] == Pending
    {
      assert decades[..i + 1] == decades[..i] + [decades[i]];
      m := m[decades[i] := Pending];
      i := i + 1;
    }
    assert decades[..i] == decades;
  }

  /** The record a generation run installs before any request is answered. */
  ghost function AllPending(): map<string, Image> {
    map d | d in DECADE_SET :: Pending
  }

  /** The `url` of an entry counts for the album only when it is `done` and
      its url is non-empty (an empty string is falsy). */
  predicate HasUrl(img: Image) {
    img.Done? && img.url != ""
  }

  /** `imageData`: the filter and reduce over `Object.entries(generatedImages)`.
      It keeps exactly the keys whose entry is `done` with a url, each mapped
      to that url, so it never has more keys than the record. */
  function AlbumData(images: map<string, Image>): (data: map<string, string>)
    ensures forall d :: d in data <==> d in images && HasUrl(images[d])
    ensures forall d | d in data :: images[d] == Done(data[d])
    ensures |data| <= |images|
  {
    var data := map d | d in images && HasUrl(images[d]) :: images[d].url;
    assert data.Keys <= images.Keys;
    SubsetCard(data.Keys, images.Keys);
    data
  }

  /** On a record over the decade labels, at least `DECADES.length` urls
      are collected exactly when every decade is `done` with a url. */
  lemma AlbumDataCovers(images: map<string, Image>)
    requires images.Keys <= DECADE_SET
    ensures |AlbumData(images)| >= |DECADES| <==> forall d | d in DECADES :: d in images && HasUrl(images[d])
  {
    DecadesDistinct();
    var data := AlbumData(images);
    assert data.Keys <= DECADE_SET;
    assert |data| == |data.Keys|;
    if |data.Keys| >= |DECADE_SET| {
      SubsetSize(data.Keys, DECADE_SET);
      assert forall d | d in DECADES :: d in data.Keys;
    }
    if forall d | d in DECADES :: d in images && HasUrl(images[d]) {
      assert DECADE_SET <= data.Keys;
      assert data.Keys == DECADE_SET;
      assert |data| == |DECADES|;
    }
  }

  /** What `handleDownloadAlbum` hands to `createAlbumPage`: the collected
      urls when there are at least `DECADES.length` of them, nothing
      otherwise. On a record over the decade labels, that is exactly when
      every decade is `done` with a url. */
  function AlbumRequest(images: map<string, Image>): (r: Option<map<string, string>>)
    ensures r.Some? <==> |AlbumData(images)| >= |DECADES|
    ensures r.Some? ==> r.value == AlbumData(images)
    ensures images.Keys <= DECADE_SET ==>
      (r.Some? <==> forall d | d in DECADES :: d in images && HasUrl(images[d]))
  {
    var data := AlbumData(images);
    assert images.Keys <= DECADE_SET ==>
      (|data| >= |DECADES| <==> forall d | d in DECADES :: d in images && HasUrl(images[d])) by {
      if images.Keys <= DECADE_SET {
        AlbumDataCovers(images);
      }
    }
    if |data| < |DECADES| then None else Some(data)
  }

  lemma SubsetCard(a: set<string>, b: set<string>)
    requires a <= b
    ensures |a| <= |b|
  {
    assert b == a + (b - a);
  }

  lemma SubsetSize(a: set<string>, b: set<string>)
    requires a <= b && |a| >= |b|
    ensures a == b
  {
    assert b == a + (b - a);
    assert |b| == |a| + |b - a|;
  }

  /** When the album is requested over a record on the decade labels, it
      carries exactly one url per decade, each the url of that decade's entry. */
  lemma AlbumRequestComplete(images: map<string, Image>)
    requires images.Keys <= DECADE_SET
    requires AlbumRequest(images).Some?
    ensures AlbumRequest(images).value.Keys == DECADE_SET
    ensures forall d | d in DECADES :: AlbumRequest(images).value[d] == images[d].url
  {
  }

  /** A record that still has a `Pending` or `Error` entry for some decade,
      or has no entry for it, is refused. */
  lemma AlbumRefusedWhileIncomplete(images: map<string, Image>, d: string)
    requires images.Keys <= DECADE_SET
    requires d in DECADES && (d !in images || !HasUrl(images[d]))
    ensures AlbumRequest(images) == None
  {
  }
}
