/**
 * Output-name derivation (src/timelapse.py:70-77, returned at 149): the
 * default base name is derived from the place, the `.gif` suffix is
 * normalised and the `.mp4` twin is derived from it.
 */
module Naming {

  /** The default value of the output name, which asks for a derived one. */
  const Sentinel: string := "timelapse"

  const Gif: string := ".gif"
  const Mp4: string := ".mp4"

  /** The characters Python's `str.isspace` accepts, which `str.strip()` removes. */
  predicate IsSpace(c: char)
  {
    || c == ' ' || '\t' <= c <= '\r' || '\U{1C}' <= c <= '\U{1F}'
    || c == '\U{85}' || c == '\U{A0}' || c == '\U{1680}' || '\U{2000}' <= c <= '\U{200A}'
    || c == '\U{2028}' || c == '\U{2029}' || c == '\U{202F}' || c == '\U{205F}' || c == '\U{3000}'
  }

  /**
   * Space, tab, newline and carriage return are whitespace; no comma,
   * underscore, dot, digit or ASCII letter is.
   */
  lemma SpaceChars(c: char)
    ensures c == ' ' || c == '\t' || c == '\n' || c == '\r' ==> IsSpace(c)
    ensures IsSpace(c) ==> c != ',' && c != '_' && c != '.' && !('0' <= c <= '9')
    ensures IsSpace(c) ==> !('A' <= c <= 'Z') && !('a' <= c <= 'z')
  {
  }

  /**
   * `s.split(',')[0]`: the text before the first comma, or all of `s` when
   * it has none.
   */
  function FirstSegment(s: string): (r: string)
    ensures ',' !in r
    ensures r <= s
    ensures r == s || s[|r|] == ','
  {
    if s == [] || s[0] == ',' then []
    else [s[0]] + FirstSegment(s[1..])
  }

  /** `s.lstrip()`: `s` without its leading whitespace. */
  function StripLeft(s: string): (r: string)
    ensures |r| <= |s| && r == s[|s| - |r|..]
    ensures r == [] || !IsSpace(r[0])
    ensures forall k {:trigger IsSpace(s[k])} :: 0 <= k < |s| - |r| ==> IsSpace(s[k])
  {
    if s != [] && IsSpace(s[0]) then StripLeft(s[1..]) else s
  }

  /** `s.rstrip()`: `s` without its trailing whitespace. */
  function StripRight(s: string): (r: string)
    ensures r <= s
    ensures r == [] || !IsSpace(r[|r| - 1])
    ensures forall k {:trigger IsSpace(s[k])} :: |r| <= k < |s| ==> IsSpace(s[k])
  {
    if s != [] && IsSpace(s[|s| - 1]) then StripRight(s[..|s| - 1]) else s
  }

  /** `s.strip()`: `s` without leading or trailing whitespace. */
  function Strip(s: string): (r: string)
    ensures |r| <= |s|
    ensures r == [] || !IsSpace(r[|r| - 1])
  {
    StripRight(StripLeft(s))
  }

  /**
   * `strip` removes whitespace at both ends and nothing else: the result is
   * a contiguous part `s[i..j]` of `s`, everything outside it is
   * whitespace, and the result neither begins nor ends with whitespace.
   */
  lemma StripKeepsMiddle(s: string)
    ensures exists i, j :: StripMiddleAt(s, i, j)
    ensures Strip(s) == [] || (!IsSpace(Strip(s)[0]) && !IsSpace(Strip(s)[|Strip(s)| - 1]))
  {
    var l := StripLeft(s);
    var r := StripRight(l);
    var i := |s| - |l|;
    TrailingSpaces(s, i, l, |r|);
    assert r == s[i..i + |r|];
    assert StripMiddleAt(s, i, i + |r|);
    StripFront(s);
  }

  /** What `strip` keeps does not begin with whitespace. */
  lemma StripFront(s: string)
    ensures Strip(s) == [] || !IsSpace(Strip(s)[0])
  {
    var l := StripLeft(s);
    if StripRight(l) != [] {
      assert StripRight(l)[0] == l[0];
    }
  }

  /** `s[i..j]` is what `strip` keeps, with only whitespace outside it. */
  predicate StripMiddleAt(s: string, i: int, j: int)
  {
    && 0 <= i <= j <= |s| && Strip(s) == s[i..j]
    && (forall k {:trigger IsSpace(s[k])} :: 0 <= k < i ==> IsSpace(s[k]))
    && (forall k {:trigger IsSpace(s[k])} :: j <= k < |s| ==> IsSpace(s[k]))
  }

  /** Whitespace at the end of the suffix `s[i..]` is whitespace at the end of `s`. */
  lemma TrailingSpaces(s: string, i: int, l: string, m: int)
    requires 0 <= i <= |s| && l == s[i..] && 0 <= m
    requires forall k {:trigger IsSpace(l[k])} :: m <= k < |l| ==> IsSpace(l[k])
    ensures forall k {:trigger IsSpace(s[k])} :: i + m <= k < |s| ==> IsSpace(s[k])
  {
    forall k | i + m <= k < |s|
      ensures IsSpace(s[k])
    {
      assert s[k] == l[k - i];
    }
  }

  /** `s.replace(' ', '_')`: every space becomes an underscore. */
  function SpacesToUnderscores(s: string): (r: string)
    ensures |r| == |s|
    ensures forall k :: 0 <= k < |s| ==> r[k] == if s[k] == ' ' then '_' else s[k]
  {
    if s == [] then []
    else [if s[0] == ' ' then '_' else s[0]] + SpacesToUnderscores(s[1..])
  }

  /** The place's cleaned name: its first comma segment, stripped, spaces made underscores. */
  function CleanPlace(place: string): (r: string)
    ensures |r| <= |place|
  {
    SpacesToUnderscores(Strip(FirstSegment(place)))
  }

  /**
   * The cleaned place name holds no comma and no space, and neither begins
   * nor ends with whitespace.
   */
  lemma CleanPlaceShape(place: string)
    ensures ',' !in CleanPlace(place) && ' ' !in CleanPlace(place)
    ensures var c := CleanPlace(place); c == [] || (!IsSpace(c[0]) && !IsSpace(c[|c| - 1]))
  {
    var seg := FirstSegment(place);
    var l := StripLeft(seg);
    var st := StripRight(l);
    var c := SpacesToUnderscores(st);
    var i := |seg| - |l|;
    forall k | 0 <= k < |c|
      ensures c[k] != ',' && c[k] != ' '
    {
      assert st[k] == l[k] == seg[i + k];
    }
    if c != [] {
      assert c[0] == st[0] && c[|c| - 1] == st[|st| - 1];
    }
  }

  /** The output base name: the sentinel is replaced by one derived from the place. */
  function ResolveName(outputName: string, place: string): (r: string)
    ensures outputName != Sentinel ==> r == outputName
    ensures outputName == Sentinel ==> r == "timelapse_" + CleanPlace(place)
  {
    if outputName == Sentinel then "timelapse_" + CleanPlace(place) else outputName
  }

  predicate EndsWith(s: string, suffix: string)
    ensures EndsWith(s, suffix) <==> |suffix| <= |s| && s == s[..|s| - |suffix|] + suffix
  {
    |suffix| <= |s| && s[|s| - |suffix|..] == suffix
  }

  /** `s.replace('.gif', '.mp4')`: every occurrence, scanned left to right. */
  function ReplaceGif(s: string): (r: string)
    ensures |r| == |s|
  {
    if |s| >= 4 && s[..4] == Gif then Mp4 + ReplaceGif(s[4..])
    else if s == [] then []
    else [s[0]] + ReplaceGif(s[1..])
  }

  /** Whether `.gif` occurs anywhere in `s`. */
  predicate HasGif(s: string)
  {
    s != [] && ((|s| >= 4 && s[..4] == Gif) || HasGif(s[1..]))
  }

  /** Replacement keeps the first character. */
  lemma ReplaceGifHead(s: string)
    requires s != []
    ensures ReplaceGif(s) != [] && ReplaceGif(s)[0] == s[0]
  {
  }

  /** A trailing `.gif` becomes a trailing `.mp4`. */
  lemma {:induction false} ReplaceGifSuffix(s: string)
    ensures ReplaceGif(s + Gif) == ReplaceGif(s) + Mp4
  {
    var t := s + Gif;
    if |s| >= 4 && s[..4] == Gif {
      assert t[..4] == Gif && t[4..] == s[4..] + Gif;
      ReplaceGifSuffix(s[4..]);
    } else if s == [] {
      assert t == Gif;
      assert t[4..] == [];
    } else {
      assert t[..4] != Gif by {
        if |s| >= 4 {
          assert t[..4] == s[..4];
        } else {
          assert t[|s|] == '.';
          assert Gif[|s|] != '.';
        }
      }
      assert t[1..] == s[1..] + Gif;
      ReplaceGifSuffix(s[1..]);
    }
  }

  /** A character other than `.` cannot start a `.gif`. */
  lemma NoGifAfter(c: char, x: string)
    requires c != '.' && !HasGif(x)
    ensures !HasGif([c] + x)
  {
    var t := [c] + x;
    assert t[1..] == x;
    if |t| >= 4 {
      assert t[..4][0] == c != Gif[0];
    }
  }

  /** Text without a `.` holds no `.gif`. */
  lemma {:induction false} NoDotNoGif(s: string)
    requires '.' !in s
    ensures !HasGif(s)
  {
    if s != [] {
      assert s[1..] <= s[1..] && forall k :: 0 <= k < |s| - 1 ==> s[1..][k] == s[k + 1];
      NoDotNoGif(s[1..]);
      NoGifAfter(s[0], s[1..]);
      assert [s[0]] + s[1..] == s;
    }
  }

  /** After replacement no `.gif` is left: every occurrence was replaced. */
  lemma {:induction false} ReplaceGifLeavesNone(s: string)
    ensures !HasGif(ReplaceGif(s))
    decreases |s|
  {
    var r := ReplaceGif(s);
    if |s| >= 4 && s[..4] == Gif {
      var x := ReplaceGif(s[4..]);
      ReplaceGifLeavesNone(s[4..]);
      assert r == Mp4 + x;
      Mp4NoGif(x);
    } else if s != [] {
      var x := ReplaceGif(s[1..]);
      ReplaceGifLeavesNone(s[1..]);
      assert r == [s[0]] + x && r[1..] == x;
      ReplaceGifNoNewStart(s);
    }
  }

  /** Putting `.mp4` in front of text without `.gif` creates none. */
  lemma Mp4NoGif(x: string)
    requires !HasGif(x)
    ensures !HasGif(Mp4 + x)
  {
    NoGifAfter('4', x);
    assert "4" + x == ['4'] + x;
    NoGifAfter('p', "4" + x);
    assert "p4" + x == ['p'] + ("4" + x);
    NoGifAfter('m', "p4" + x);
    assert "mp4" + x == ['m'] + ("p4" + x);
    var r := Mp4 + x;
    assert r[1..] == "mp4" + x;
    assert r[..4][1] == 'm' != Gif[1];
  }

  /** Replacing in text that does not start with `.` keeps its first character and moves on. */
  lemma ReplaceGifStep(s: string)
    requires s != [] && s[0] != '.'
    ensures ReplaceGif(s) == [s[0]] + ReplaceGif(s[1..])
  {
    assert |s| >= 4 ==> s[..4][0] != Gif[0];
  }

  /** Replacement does not create a `.gif` at the front of text that did not start with one. */
  lemma ReplaceGifNoNewStart(s: string)
    requires s != [] && !(|s| >= 4 && s[..4] == Gif)
    ensures var r := ReplaceGif(s); !(|r| >= 4 && r[..4] == Gif)
  {
    var r := ReplaceGif(s);
    ReplaceGifHead(s);
    if s[0] == '.' && |s| >= 2 {
      assert r == [s[0]] + ReplaceGif(s[1..]);
      ReplaceGifHead(s[1..]);
      assert r[1] == s[1];
      if s[1] == 'g' && |s| >= 3 {
        ReplaceGifStep(s[1..]);
        ReplaceGifHead(s[2..]);
        assert r[2] == s[2];
        if s[2] == 'i' && |s| >= 4 {
          ReplaceGifStep(s[2..]);
          ReplaceGifHead(s[3..]);
          assert r[3] == s[3];
          assert r[..4][3] == s[..4][3];
        } else if s[2] == 'i' {
          assert s[1..][1..][1..] == [];
          assert |r| == 3;
        } else {
          assert |r| >= 4 ==> r[..4][2] != Gif[2];
        }
      } else if s[1] == 'g' {
        assert s[1..][1..] == [];
        assert |r| == 2;
      } else {
        assert |r| >= 4 ==> r[..4][1] != Gif[1];
      }
    } else if s[0] == '.' {
      assert s[1..] == [];
      assert |r| == 1;
    } else {
      assert |r| >= 4 ==> r[..4][0] != Gif[0];
    }
  }

  /** Text without `.gif` is left as it is by the replacement. */
  lemma {:induction false} ReplaceGifNoop(s: string)
    requires !HasGif(s)
    ensures ReplaceGif(s) == s
  {
    if s != [] {
      ReplaceGifNoop(s[1..]);
    }
  }

  /**
   * The `.gif` and `.mp4` names of an output base name: a name without the
   * `.gif` suffix gets both suffixes appended; a name with it is kept as the
   * `.gif` name and every `.gif` in it is replaced to give the `.mp4` name,
   * which then ends in `.mp4` and holds no `.gif` at all.
   */
  function OutputNames(name: string): (r: (string, string))
    ensures EndsWith(r.0, Gif) && EndsWith(r.1, Mp4)
    ensures !EndsWith(name, Gif) ==> r == (name + Gif, name + Mp4)
    ensures EndsWith(name, Gif) ==> r.0 == name && r.1 == ReplaceGif(name) && !HasGif(r.1)
  {
    if !EndsWith(name, Gif) then (name + Gif, name + Mp4)
    else
      var mp4 := ReplaceGif(name);
      ReplaceGifSuffix(name[..|name| - 4]);
      assert name[..|name| - 4] + Gif == name;
      ReplaceGifLeavesNone(name);
      (name, mp4)
  }

  /** Normalising the suffix of an already normalised name changes nothing. */
  lemma OutputNamesIdempotent(name: string)
    ensures OutputNames(OutputNames(name).0).0 == OutputNames(name).0
  {
  }

  /**
   * What the pipeline returns: the `.gif` name of the resolved output name.
   * It always ends in `.gif`, it is the resolved name with `.gif` appended
   * at most once, and when no name was chosen it starts with the
   * place-derived default.
   */
  function ReturnedName(outputName: string, place: string): (r: string)
    ensures EndsWith(r, Gif)
    ensures r == ResolveName(outputName, place) || r == ResolveName(outputName, place) + Gif
    ensures outputName == Sentinel ==> "timelapse_" + CleanPlace(place) <= r
    ensures outputName != Sentinel && !EndsWith(outputName, Gif) ==> r == outputName + Gif
  {
    OutputNames(ResolveName(outputName, place)).0
  }

  /** The first comma segment of `a,b` is `a` when `a` has no comma. */
  lemma {:induction false} FirstSegmentBeforeComma(a: string, b: string)
    requires ',' !in a
    ensures FirstSegment(a + [','] + b) == a
  {
    if a != [] {
      assert (a + [','] + b)[1..] == a[1..] + [','] + b;
      FirstSegmentBeforeComma(a[1..], b);
    }
  }

  /** Text with no whitespace at either end is left as it is by `strip`. */
  lemma StripNoop(s: string)
    requires s == [] || (!IsSpace(s[0]) && !IsSpace(s[|s| - 1]))
    ensures Strip(s) == s
  {
  }

  /** Text without spaces is left as it is by the space replacement. */
  lemma SpacesNoop(s: string)
    requires ' ' !in s
    ensures SpacesToUnderscores(s) == s
  {
  }

  /** "Udine, Italy" cleans to "Udine". */
  lemma CleanUdine(place: string, udine: string)
    requires place == "Udine, Italy" && udine == "Udine"
    ensures CleanPlace(place) == udine
  {
    assert ',' !in udine && ' ' !in udine;
    assert place == udine + [','] + " Italy";
    FirstSegmentBeforeComma(udine, " Italy");
    var seg := FirstSegment(place);
    assert seg == udine;
    assert !IsSpace(udine[0]) && !IsSpace(udine[|udine| - 1]);
    StripNoop(udine);
    var stripped := Strip(seg);
    assert stripped == udine;
    SpacesNoop(udine);
  }

  /** The default names for "Udine, Italy": `timelapse_Udine.gif` and `timelapse_Udine.mp4`. */
  lemma UdineNames(place: string, gif: string, mp4: string)
    requires place == "Udine, Italy"
    requires gif == "timelapse_Udine" + ".gif" && mp4 == "timelapse_Udine" + ".mp4"
    ensures ReturnedName(Sentinel, place) == gif
    ensures OutputNames(ResolveName(Sentinel, place)) == (gif, mp4)
  {
    var udine := "Udine";
    CleanUdine(place, udine);
    var name := ResolveName(Sentinel, place);
    assert name == "timelapse_" + udine;
    assert name == "timelapse_Udine";
    assert |name| == 15 && name[11] == 'd';
    NotGifName(name);
  }

  /** A name whose fourth-last character is not `.` does not end in `.gif`. */
  lemma NotGifName(name: string)
    requires |name| >= 4 && name[|name| - 4] != '.'
    ensures OutputNames(name) == (name + Gif, name + Mp4)
  {
    assert name[|name| - 4..][0] != Gif[0];
  }

  /** An inner `.gif` is replaced in the `.mp4` name as well as the suffix. */
  lemma InnerGifReplaced(name: string, clip: string)
    requires clip == "clip" && name == clip + Gif + Gif
    ensures OutputNames(name) == (name, clip + Mp4 + Mp4)
  {
    assert EndsWith(name, Gif);
    assert '.' !in clip;
    NoDotNoGif(clip);
    ReplaceGifNoop(clip);
    ReplaceGifSuffix(clip);
    ReplaceGifSuffix(clip + Gif);
  }
}
