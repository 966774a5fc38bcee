/** The test `handleImageUpload` applies to a chosen file before reading it
    (App.tsx): a file is converted from HEIC/HEIF to JPEG first exactly when
    its lower-cased MIME type mentions `heic` or `heif`, or its lower-cased
    name ends in `.heic` or `.heif`. */
module Heic {

  /** The two properties of a browser `File` the test looks at. */
  datatype File = File(name: string, mime: string)

  function LowerChar(c: char): char {
    if 'A' <= c <= 'Z' then (c as int + 32) as char else c
  }

  /** `String.prototype.toLowerCase`, on the ASCII letters: no upper-case
      letter is left, every other character is kept where it was, and each
      upper-case letter becomes the lower-case one 32 code points above. */
  function Lower(s: string): (r: string)
    ensures |r| == |s|
    ensures forall i | 0 <= i < |r| :: !('A' <= r[i] <= 'Z')
    ensures forall i | 0 <= i < |s| && !('A' <= s[i] <= 'Z') :: r[i] == s[i]
    ensures forall i | 0 <= i < |s| && 'A' <= s[i] <= 'Z' :: 'a' <= r[i] <= 'z' && r[i] as int == s[i] as int + 32
  {
    seq(|s|, i requires 0 <= i < |s| => LowerChar(s[i]))
  }

  /** Lower-casing twice is lower-casing once. */
  lemma LowerIdempotent(s: string)
    ensures Lower(Lower(s)) == Lower(s)
  {
    var r := Lower(s);
    assert forall i | 0 <= i < |r| :: Lower(r)[i] == r[i];
  }

  /** `t` occurs in `s` at position `i`. */
  ghost predicate OccursAt(s: string, t: string, i: int) {
    0 <= i && i + |t| <= |s| && s[i..i + |t|] == t
  }

  /** `s.includes(t)`: a left-to-right search for `t` in `s`. */
  function Includes(s: string, t: string): (b: bool)
    ensures b <==> exists i :: OccursAt(s, t, i)
    decreases |s|
  {
    if |t| > |s| then
      assert forall i :: !OccursAt(s, t, i);
      false
    else if s[..|t|] == t then
      assert OccursAt(s, t, 0);
      true
    else
      var rest := Includes(s[1..], t);
      assert forall i :: OccursAt(s[1..], t, i) <==> OccursAt(s, t, i + 1) by {
        forall i ensures OccursAt(s[1..], t, i) <==> OccursAt(s, t, i + 1) {
          if 0 <= i && i + |t| <= |s| - 1 {
            assert s[1..][i..i + |t|] == s[i + 1..i + 1 + |t|];
          }
        }
      }
      assert !OccursAt(s, t, 0);
      assert (exists i :: OccursAt(s, t, i)) ==> exists i :: OccursAt(s[1..], t, i) by {
        if exists i :: OccursAt(s, t, i) {
          var i :| OccursAt(s, t, i);
          assert OccursAt(s[1..], t, i - 1);
        }
      }
      rest
  }

  /** `s.endsWith(t)`. */
  function EndsWith(s: string, t: string): (b: bool)
    ensures b <==> exists stem :: stem + t == s
  {
    if |t| <= |s| && s[|s| - |t|..] == t then
      assert s[..|s| - |t|] + t == s;
      true
    else
      false
  }

  /** The file is HEIC or HEIF and goes through `heic2any` before it is read:
      its lower-cased type contains `heic` or `heif` somewhere, or its
      lower-cased name is some stem followed by `.heic` or `.heif`. */
  predicate IsHeic(f: File): (b: bool)
    ensures b <==> || (exists i :: OccursAt(Lower(f.mime), "heic", i))
                   || (exists i :: OccursAt(Lower(f.mime), "heif", i))
                   || (exists stem :: stem + ".heic" == Lower(f.name))
                   || (exists stem :: stem + ".heif" == Lower(f.name))
  {
    var name := Lower(f.name);
    var mime := Lower(f.mime);
    Includes(mime, "heic") || Includes(mime, "heif") || EndsWith(name, ".heic") || EndsWith(name, ".heif")
  }

  lemma LowerConcat(a: string, b: string)
    ensures Lower(a + b) == Lower(a) + Lower(b)
  {
  }

  lemma {:induction false} IncludesInfix(pre: string, t: string, post: string)
    ensures Includes(pre + t + post, t)
  {
    assert (pre + t + post)[|pre|..|pre| + |t|] == t;
    assert OccursAt(pre + t + post, t, |pre|);
  }

  /** Any name ending in `.heic` or `.heif`, in any letter case, is a HEIC
      file, whatever MIME type the browser reports. */
  lemma HeicByName(stem: string, ext: string, mime: string)
    requires Lower(ext) == ".heic" || Lower(ext) == ".heif"
    ensures IsHeic(File(stem + ext, mime))
  {
    LowerConcat(stem, ext);
    assert Lower(stem) + Lower(ext) == Lower(stem + ext);
  }

  /** Any MIME type that contains `heic` or `heif`, in any letter case, marks
      a HEIC file, whatever its name. */
  lemma HeicByMime(name: string, pre: string, tag: string, post: string)
    requires Lower(tag) == "heic" || Lower(tag) == "heif"
    ensures IsHeic(File(name, pre + tag + post))
  {
    LowerConcat(pre + tag, post);
    LowerConcat(pre, tag);
    IncludesInfix(Lower(pre), Lower(tag), Lower(post));
  }

  /** Letter case never matters: lower-casing the name and type first gives
      the same answer. */
  lemma HeicIgnoresCase(f: File)
    ensures IsHeic(f) == IsHeic(File(Lower(f.name), Lower(f.mime)))
  {
    LowerIdempotent(f.name);
    LowerIdempotent(f.mime);
  }

  /** `IMG_0001.HEIC` is converted, whatever type the browser reports. */
  lemma HeicNameExample(mime: string)
    ensures IsHeic(File("IMG_0001.HEIC", mime))
  {
    assert "IMG_0001" + ".HEIC" == "IMG_0001.HEIC";
    HeicByName("IMG_0001", ".HEIC", mime);
  }

  /** A file typed `image/HEIF` is converted, whatever its name. */
  lemma HeicMimeExample(name: string)
    ensures IsHeic(File(name, "image/HEIF"))
  {
    HeicByMime(name, "image/", "HEIF", "");
    assert "image/" + "HEIF" + "" == "image/HEIF";
  }

  /** A string without the first letter of `t` cannot contain `t`. */
  lemma Absent(s: string, t: string)
    requires |t| > 0 && forall i | 0 <= i < |s| :: s[i] != t[0]
    ensures !Includes(s, t)
  {
    forall i | 0 <= i && i + |t| <= |s| ensures !OccursAt(s, t, i) {
      assert s[i..i + |t|][0] == s[i];
    }
  }

  /** A JPEG whose name merely contains `.heic` is read as it is. */
  lemma JpegExample()
    ensures !IsHeic(File("photo.heic.jpg", "image/jpeg"))
  {
    var name := Lower("photo.heic.jpg");
    var mime := Lower("image/jpeg");
    assert name[|name| - 5..] == "c.jpg";
    assert mime == "image/jpeg";
    Absent(mime, "heic");
    Absent(mime, "heif");
  }
}
