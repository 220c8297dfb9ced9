/** The parts of path handling the converter relies on: the suffix and stem
    of a file name, `with_suffix`, and ASCII lower-casing of a suffix. */
module Paths {
  import opened Media

  /** The index of the last occurrence of `c` in `s`, or -1 when there is none. */
  function RFind(s: string, c: char): (i: int)
    ensures -1 <= i < |s|
    ensures i >= 0 ==> s[i] == c
    ensures forall j :: i < j < |s| ==> s[j] != c
    decreases |s|
  {
    if |s| == 0 then -1
    else if s[|s| - 1] == c then |s| - 1
    else RFind(s[..|s| - 1], c)
  }

  /** The suffix of a file name: from its last dot on, provided that dot is
      neither the first nor the last character; otherwise empty. */
  function Suffix(name: string): string
  {
    var i := RFind(name, '.');
    if 0 < i < |name| - 1 then name[i..] else ""
  }

  /** The file name without its suffix. */
  function Stem(name: string): string
  {
    var i := RFind(name, '.');
    if 0 < i < |name| - 1 then name[..i] else name
  }

  /** The name with its suffix replaced by `suffix` (appended when it has none). */
  function WithSuffix(name: string, suffix: string): string
  {
    Stem(name) + suffix
  }

  /** A suffix with a dot inside it is never the suffix a name already has,
      so giving a name such a suffix always changes it. */
  lemma NewInnerDotSuffixChanges(name: string, suffix: string)
    requires exists j :: 0 < j < |suffix| && suffix[j] == '.'
    ensures WithSuffix(name, suffix) != name
  {
    StemSuffixSplit(name);
    var j :| 0 < j < |suffix| && suffix[j] == '.';
    if |suffix| == |Suffix(name)| {
      assert WithSuffix(name, suffix)[|Stem(name)| + j] == suffix[j];
      assert name[|Stem(name)| + j] == Suffix(name)[j];
    }
  }

  /** `with_suffix` replaces only the suffix: the name ends with the new
      suffix, what comes before it followed by the old suffix is the
      original name, and a name without a suffix just gets `suffix`
      appended. */
  lemma WithSuffixReplaces(name: string, suffix: string)
    ensures |WithSuffix(name, suffix)| >= |suffix|
    ensures WithSuffix(name, suffix)[|WithSuffix(name, suffix)| - |suffix|..] == suffix
    ensures WithSuffix(name, suffix)[..|WithSuffix(name, suffix)| - |suffix|] + Suffix(name) == name
    ensures Suffix(name) == "" ==> WithSuffix(name, suffix) == name + suffix
  {
    StemSuffixSplit(name);
    var r := WithSuffix(name, suffix);
    assert r[..|r| - |suffix|] == Stem(name);
  }

  /** The names behind a clash of paths: `<stem>.temp.png` has the suffix
      `.png` and, given the suffix `.webp`, the name that `<stem>.mp4` given
      `.webp` and then `.temp.webp` has. */
  lemma TempNameCollision(stem: string)
    requires |stem| > 0
    ensures Suffix(stem + ".temp.png") == ".png"
    ensures Suffix(stem + ".mp4") == ".mp4"
    ensures Stem(stem + ".temp.png") + ".webp" == WithSuffix(Stem(stem + ".mp4") + ".webp", ".temp.webp")
  {
    var image, video, output := stem + ".temp.png", stem + ".mp4", stem + ".webp";
    assert image == (stem + ".temp") + ".png";
    JoinedWithExtension(stem + ".temp", ".png");
    assert Suffix(image) == ".png" && Stem(image) == stem + ".temp";
    JoinedWithExtension(stem, ".mp4");
    assert Stem(video) == stem;
    JoinedWithExtension(stem, ".webp");
    assert Stem(output) == stem;
    assert WithSuffix(output, ".temp.webp") == stem + ".temp.webp";
    assert (stem + ".temp") + ".webp" == stem + ".temp.webp";
  }

  /** `SplitOfJoined` for an extension of a dot and three or four
      characters none of which is a dot. */
  lemma JoinedWithExtension(stem: string, ext: string)
    requires |stem| > 0 && (ext == ".png" || ext == ".mp4" || ext == ".webp")
    ensures Suffix(stem + ext) == ext && Stem(stem + ext) == stem
  {
    assert ext[1] != '.' && ext[2] != '.' && ext[3] != '.';
    assert |ext| == 5 ==> ext[4] != '.';
    SplitOfJoined(stem, ext);
  }

  /** Stem and suffix split the name: nothing is lost or added. */
  lemma StemSuffixSplit(name: string)
    ensures Stem(name) + Suffix(name) == name
    ensures Suffix(name) == "" || (|Suffix(name)| >= 2 && Suffix(name)[0] == '.')
    ensures Suffix(name) != "" ==> |Stem(name)| > 0
    ensures forall j :: 0 < j < |Suffix(name)| ==> Suffix(name)[j] != '.'
  {
    var i := RFind(name, '.');
    if 0 < i < |name| - 1 {
      assert name[..i] + name[i..] == name;
      forall j | 0 < j < |name[i..]| ensures name[i..][j] != '.' {
        assert name[i..][j] == name[i + j];
      }
    }
  }

  /** Appending a one-dot extension to a non-empty stem gives a name whose
      stem and suffix are exactly those two parts. */
  lemma {:induction false} SplitOfJoined(stem: string, ext: string)
    requires |stem| > 0 && |ext| >= 2 && ext[0] == '.'
    requires forall j :: 0 < j < |ext| ==> ext[j] != '.'
    ensures Suffix(stem + ext) == ext && Stem(stem + ext) == stem
  {
    var name := stem + ext;
    var i := RFind(name, '.');
    assert name[|stem|] == '.';
    forall j | |stem| < j < |name| ensures name[j] != '.' {
      assert name[j] == ext[j - |stem|];
    }
    assert i == |stem|;
    assert name[i..] == ext;
    assert name[..i] == stem;
  }

  /** ASCII lower-casing of one character. */
  function LowerChar(c: char): char
  {
    if 'A' <= c <= 'Z' then (c as int + 32) as char else c
  }

  /** ASCII lower-casing of a string, character by character. */
  function Lower(s: string): string
  {
    seq(|s|, i requires 0 <= i < |s| => LowerChar(s[i]))
  }

  /** Two strings that are equal once case is ignored. */
  predicate SameIgnoringCase(a: string, b: string)
  {
    |a| == |b| && forall i :: 0 <= i < |a| ==> LowerChar(a[i]) == LowerChar(b[i])
  }

  /** Lower-casing is exactly the "equal ignoring case" relation, and it is
      idempotent. */
  lemma LowerCharacterises(a: string, b: string)
    ensures Lower(a) == Lower(b) <==> SameIgnoringCase(a, b)
    ensures Lower(Lower(a)) == Lower(a)
  {
    if SameIgnoringCase(a, b) {
      assert forall i :: 0 <= i < |a| ==> Lower(a)[i] == Lower(b)[i];
    }
    if Lower(a) == Lower(b) {
      assert forall i :: 0 <= i < |a| ==> LowerChar(a[i]) == Lower(a)[i];
    }
  }
}
