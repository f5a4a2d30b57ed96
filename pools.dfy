/**
 * The photo pools of `make_banner` (BannerCollageMaker.py): the image-name
 * filter, the favourites and background pools with the errors raised when one
 * is missing or empty, the expansion of a pool by repetition to a number of
 * slots, and `random.shuffle` as CPython's Fisher-Yates walk.
 */
module Pools {
  import opened Base
  import Text
  import Arith

  /** `is_image`: an image extension after lowering, and a base name not starting with `._`. */
  predicate IsImage(f: string)
  {
    Text.HasImageExtension(Text.Lower(f)) && !Text.StartsWith(Text.BaseName(Text.Lower(f)), "._")
  }

  /** The filter looks at the lowered name only, so it ignores letter case. */
  lemma IsImageIgnoresCase(f: string)
    ensures IsImage(Text.Lower(f)) <==> IsImage(f)
  {
    Text.LowerIdempotent(f);
  }

  /** `s + "/" + name` ends with a suffix without '/' exactly when `name` does. */
  lemma EndsWithJoin(dir: string, name: string, suffix: string)
    requires '/' !in suffix
    ensures Text.EndsWith(dir + "/" + name, suffix) <==> Text.EndsWith(name, suffix)
  {
    var p := dir + "/" + name;
    if |suffix| <= |name| {
      assert p[|p| - |suffix|..] == name[|name| - |suffix|..];
    } else if |suffix| <= |p| {
      var k := |dir| - (|p| - |suffix|);
      assert p[|p| - |suffix|..][k] == '/';
      assert '/' in p[|p| - |suffix|..];
    }
  }

  /**
   * For a name inside a folder, only the name decides: it is an image when its
   * lowered form has an image extension and does not start with `._`.
   */
  lemma IsImageInFolder(dir: string, name: string)
    requires '/' !in name
    ensures IsImage(dir + "/" + name) <==>
      Text.HasImageExtension(Text.Lower(name)) && !Text.StartsWith(Text.Lower(name), "._")
  {
    Text.LowerAppend(dir + "/", name);
    Text.LowerAppend(dir, "/");
    var ln := Text.Lower(name);
    assert Text.Lower("/") == "/";
    assert Text.Lower(dir + "/" + name) == Text.Lower(dir) + "/" + ln;
    assert '/' !in ln by {
      forall i | 0 <= i < |ln| ensures ln[i] != '/' {
        assert name[i] in name;
      }
    }
    Text.BaseNameOfJoin(Text.Lower(dir), ln);
    EndsWithJoin(Text.Lower(dir), ln, ".jpg");
    EndsWithJoin(Text.Lower(dir), ln, ".jpeg");
    EndsWithJoin(Text.Lower(dir), ln, ".png");
    EndsWithJoin(Text.Lower(dir), ln, ".webp");
  }

  /** `FAVS_FOLDER`. */
  const FAVS_FOLDER: string := "Favs"

  /** `favs`: each listed name joined to the favourites folder, kept when it is an image, in listing order. */
  function Favourites(listing: seq<string>): (favs: seq<string>)
    ensures |favs| <= |listing|
    ensures forall p :: p in favs <==> exists f :: f in listing && p == FAVS_FOLDER + "/" + f && IsImage(p)
  {
    if listing == [] then []
    else
      var rest := Favourites(listing[..|listing| - 1]);
      var f := listing[|listing| - 1];
      var p := FAVS_FOLDER + "/" + f;
      assert listing == listing[..|listing| - 1] + [f];
      if IsImage(p) then rest + [p] else rest
  }

  /** The favourites of one name: that name in the folder, when it is an image. */
  lemma FavouritesOfOne(f: string)
    ensures Favourites([f]) == if IsImage(FAVS_FOLDER + "/" + f) then [FAVS_FOLDER + "/" + f] else []
  {
    assert [f][..0] == [];
  }

  /** The filter keeps the listing's order: the favourites of a concatenation are concatenated. */
  lemma {:induction false} FavouritesAppend(a: seq<string>, b: seq<string>)
    ensures Favourites(a + b) == Favourites(a) + Favourites(b)
    decreases |b|
  {
    if b == [] {
      assert a + b == a;
    } else {
      var init := b[..|b| - 1];
      assert (a + b)[..|a + b| - 1] == a + init;
      FavouritesAppend(a, init);
    }
  }

  /** `fav_names`: the base names of the favourites. */
  function FavNames(favs: seq<string>): set<string>
  {
    set p | p in favs :: Text.BaseName(p)
  }

  /** `others`: the archive photos, in order, whose base name is not a favourite's base name. */
  function Background(allImgs: seq<string>, favNames: set<string>): (others: seq<string>)
    ensures |others| <= |allImgs|
    ensures forall p :: p in others <==> p in allImgs && Text.BaseName(p) !in favNames
  {
    if allImgs == [] then []
    else
      var rest := Background(allImgs[..|allImgs| - 1], favNames);
      var p := allImgs[|allImgs| - 1];
      assert allImgs == allImgs[..|allImgs| - 1] + [p];
      if Text.BaseName(p) !in favNames then rest + [p] else rest
  }

  /** The background of one photo: the photo, unless its base name is a favourite's. */
  lemma BackgroundOfOne(p: string, favNames: set<string>)
    ensures Background([p], favNames) == if Text.BaseName(p) !in favNames then [p] else []
  {
    assert [p][..0] == [];
  }

  /** The filter keeps the archive's order: the background of a concatenation is concatenated. */
  lemma {:induction false} BackgroundAppend(a: seq<string>, b: seq<string>, favNames: set<string>)
    ensures Background(a + b, favNames) == Background(a, favNames) + Background(b, favNames)
    decreases |b|
  {
    if b == [] {
      assert a + b == a;
    } else {
      var init, last := b[..|b| - 1], b[|b| - 1];
      var keep: seq<string> := if Text.BaseName(last) !in favNames then [last] else [];
      assert (a + b)[..|a + b| - 1] == a + init;
      assert (a + b)[|a + b| - 1] == last;
      assert Background(a + b, favNames) == Background(a + init, favNames) + keep;
      assert Background(b, favNames) == Background(init, favNames) + keep;
      BackgroundAppend(a, init, favNames);
    }
  }

  /** The ways `make_banner` stops before drawing. */
  datatype BannerError =
    | FavsFolderMissing   // FileNotFoundError: no folder `Favs`
    | FavsEmpty           // ValueError: no image in `Favs`
    | NoBackground        // ValueError: every archive photo shares a name with a favourite

  datatype Sources = Sources(favs: seq<string>, others: seq<string>)

  /**
   * Lines 100-108 of `make_banner`: the favourites and background pools, or the
   * first error in the order the checks are made.
   */
  function Gather(favsIsDir: bool, listing: seq<string>, allImgs: seq<string>): (r: Result<Sources, BannerError>)
    ensures r == Err(FavsFolderMissing) <==> !favsIsDir
    ensures r == Err(FavsEmpty) <==> favsIsDir && Favourites(listing) == []
    ensures r == Err(NoBackground) <==>
      favsIsDir && Favourites(listing) != [] && Background(allImgs, FavNames(Favourites(listing))) == []
    ensures r.Ok? ==> r.value == Sources(Favourites(listing), Background(allImgs, FavNames(Favourites(listing))))
    ensures r.Ok? ==> r.value.favs != [] && r.value.others != []
    ensures r.Ok? ==> forall p :: p in r.value.others ==>
      p in allImgs && forall q :: q in r.value.favs ==> Text.BaseName(p) != Text.BaseName(q)
  {
    if !favsIsDir then Err(FavsFolderMissing)
    else
      var favs := Favourites(listing);
      var others := Background(allImgs, FavNames(favs));
      if favs == [] then Err(FavsEmpty)
      else if others == [] then Err(NoBackground)
      else Ok(Sources(favs, others))
  }

  /** `s * k`. */
  function Repeat<T>(s: seq<T>, k: nat): (r: seq<T>)
    ensures |r| == |s| * k
  {
    if k == 0 then [] else s + Repeat(s, k - 1)
  }

  /** Element `i` of `s * k` is element `i mod |s|` of `s`. */
  lemma {:induction false} RepeatAt<T>(s: seq<T>, k: nat, i: nat)
    requires i < |Repeat(s, k)|
    ensures Repeat(s, k)[i] == s[i % |s|]
    decreases k
  {
    var n := |s|;
    var rest := Repeat(s, k - 1);
    assert Repeat(s, k) == s + rest;
    if i < n {
      Arith.DivModUnique(i, n, 0, i);
    } else {
      RepeatAt(s, k - 1, i - n);
      var m := (i - n) % n;
      Arith.DivModUnique(i - n, n, (i - n) / n, m);
      Arith.DivModUnique(i, n, (i - n) / n + 1, m);
    }
  }

  /** `(pool * (slots // len(pool) + 1))[:slots]`. */
  function Expand<T>(pool: seq<T>, slots: nat): (r: seq<T>)
    requires |pool| > 0
    ensures |r| == slots
    ensures forall i :: 0 <= i < slots ==> r[i] == pool[i % |pool|]
  {
    var k := slots / |pool| + 1;
    Arith.DivBracket(slots, |pool|);
    assert slots < |pool| * k;
    var r := Repeat(pool, k)[..slots];
    assert forall i :: 0 <= i < slots ==> r[i] == pool[i % |pool|] by {
      forall i | 0 <= i < slots ensures r[i] == pool[i % |pool|] {
        RepeatAt(pool, k, i);
      }
    }
    r
  }

  /** With at least as many slots as photos, every photo of the pool is placed. */
  lemma ExpandCovers<T>(pool: seq<T>, slots: nat)
    requires 0 < |pool| <= slots
    ensures forall x :: x in pool ==> x in Expand(pool, slots)
  {
    var r := Expand(pool, slots);
    forall x | x in pool ensures x in r {
      var i :| 0 <= i < |pool| && pool[i] == x;
      assert r[i] == x;
    }
  }

  /** With at most as many slots as photos, the expansion is the pool's first `slots` photos. */
  lemma ExpandTruncates<T>(pool: seq<T>, slots: nat)
    requires 0 < |pool| && slots <= |pool|
    ensures Expand(pool, slots) == pool[..slots]
  {
  }

  /** The sequence with the elements at `i` and `j` exchanged. */
  function Swap<T>(s: seq<T>, i: nat, j: nat): (r: seq<T>)
    requires i < |s| && j < |s|
    ensures |r| == |s| && r[i] == s[j] && r[j] == s[i]
    ensures forall k :: 0 <= k < |s| && k != i && k != j ==> r[k] == s[k]
  {
    s[i := s[j]][j := s[i]]
  }

  /** An exchange keeps the multiset. */
  lemma SwapPermutes<T>(s: seq<T>, i: nat, j: nat)
    requires i < |s| && j < |s|
    ensures multiset(Swap(s, i, j)) == multiset(s)
  {
    var t := s[i := s[j]];
    assert multiset(t) == multiset(s) - multiset{s[i]} + multiset{s[j]};
    assert multiset(t[j := s[i]]) == multiset(t) - multiset{t[j]} + multiset{s[i]};
  }

  /**
   * CPython's `random.shuffle` from position `i` down to 1: position `i` is
   * exchanged with position `randbelow(i + 1)`, here `draw(i) % (i + 1)`.
   */
  function ShuffleDown<T>(s: seq<T>, draw: nat -> nat, i: nat): (r: seq<T>)
    requires i < |s|
    ensures |r| == |s|
    decreases i
  {
    if i == 0 then s else ShuffleDown(Swap(s, i, draw(i) % (i + 1)), draw, i - 1)
  }

  /** The result of `random.shuffle` for the draws `draw`. */
  function Shuffled<T>(s: seq<T>, draw: nat -> nat): seq<T>
  {
    if |s| <= 1 then s else ShuffleDown(s, draw, |s| - 1)
  }

  /** Whatever the draws, shuffling only rearranges: the multiset, and so the length, is kept. */
  lemma {:induction false} ShufflePermutes<T>(s: seq<T>, draw: nat -> nat)
    ensures multiset(Shuffled(s, draw)) == multiset(s)
    ensures |Shuffled(s, draw)| == |s|
  {
    if |s| > 1 {
      ShuffleDownPermutes(s, draw, |s| - 1);
    }
  }

  lemma {:induction false} ShuffleDownPermutes<T>(s: seq<T>, draw: nat -> nat, i: nat)
    requires i < |s|
    ensures multiset(ShuffleDown(s, draw, i)) == multiset(s)
    decreases i
  {
    if i > 0 {
      var j := draw(i) % (i + 1);
      SwapPermutes(s, i, j);
      ShuffleDownPermutes(Swap(s, i, j), draw, i - 1);
    }
  }

  /** The draws that exchange each position with itself leave the sequence as it was. */
  lemma {:induction false} ShuffleIdentity<T>(s: seq<T>)
    ensures Shuffled(s, i => i) == s
  {
    if |s| > 1 {
      ShuffleDownIdentity(s, |s| - 1);
    }
  }

  lemma {:induction false} ShuffleDownIdentity<T>(s: seq<T>, i: nat)
    requires i < |s|
    ensures ShuffleDown(s, i => i, i) == s
    decreases i
  {
    if i > 0 {
      assert Swap(s, i, i % (i + 1)) == s;
      ShuffleDownIdentity(s, i - 1);
    }
  }

  /** `random.shuffle(a)` in place, for the draws `draw`. */
  method Shuffle<T>(a: array<T>, draw: nat -> nat)
    modifies a
    ensures a[..] == Shuffled(old(a[..]), draw)
  {
    if a.Length <= 1 {
      return;
    }
    var i := a.Length - 1;
    while i > 0
      invariant 0 <= i < a.Length
      invariant ShuffleDown(a[..], draw, i) == Shuffled(old(a[..]), draw)
    {
      var j := draw(i) % (i + 1);
      ghost var before := a[..];
      a[i], a[j] := a[j], a[i];
      assert a[..] == Swap(before, i, j);
      i := i - 1;
    }
  }
}
