/** The extension-to-colour map the application builds from its colour
    mappings and shares, as one `Map` object, with the treemap. */
module ColorMaps {
  import opened Text

  /** One `{extension, color}` mapping; the empty string stands for a
      missing or empty value. */
  datatype ColorMapping = ColorMapping(extension: string, color: string)

  /** The shared `Map` object: the application clears and refills it, and
      the treemap reads it through its own reference. */
  class ColorMap {
    var entries: map<string, string>

    constructor ()
      ensures entries == map[]
    {
      entries := map[];
    }
  }

  /** `updateColorMap` skips mappings whose extension or colour is empty. */
  predicate Kept(m: ColorMapping) {
    m.extension != "" && m.color != ""
  }

  /** The map `updateColorMap` builds: mappings in order, each kept one
      setting its lower-cased extension, so later ones overwrite earlier
      ones. */
  function ColorMapOf(ms: seq<ColorMapping>): map<string, string> {
    if ms == [] then map[]
    else
      var prev := ColorMapOf(ms[..|ms| - 1]);
      var last := ms[|ms| - 1];
      if Kept(last) then prev[Lower(last.extension) := last.color] else prev
  }

  /** Mapping `i` is the last kept one for key `k`. */
  predicate LastFor(ms: seq<ColorMapping>, k: string, i: int) {
    && 0 <= i < |ms| && Kept(ms[i]) && Lower(ms[i].extension) == k
    && forall j :: i < j < |ms| ==> !(Kept(ms[j]) && Lower(ms[j].extension) == k)
  }

  /** A key is present exactly when some kept mapping lower-cases to it, and
      then it holds the colour of the last such mapping. */
  lemma ColorMapOfLookup(ms: seq<ColorMapping>, k: string)
    ensures k in ColorMapOf(ms) <==> exists i :: 0 <= i < |ms| && Kept(ms[i]) && Lower(ms[i].extension) == k
    ensures k in ColorMapOf(ms) ==> exists i :: LastFor(ms, k, i) && ColorMapOf(ms)[k] == ms[i].color
  {
    ColorMapOfKeys(ms, k);
    ColorMapOfLastWins(ms, k);
  }

  lemma {:induction false} ColorMapOfKeys(ms: seq<ColorMapping>, k: string)
    ensures k in ColorMapOf(ms) <==> exists i :: 0 <= i < |ms| && Kept(ms[i]) && Lower(ms[i].extension) == k
  {
    if ms != [] {
      var init := ms[..|ms| - 1];
      ColorMapOfKeys(init, k);
      if k in ColorMapOf(init) {
        var i :| 0 <= i < |init| && Kept(init[i]) && Lower(init[i].extension) == k;
        assert ms[i] == init[i];
      }
      if exists i :: 0 <= i < |ms| && Kept(ms[i]) && Lower(ms[i].extension) == k {
        var i :| 0 <= i < |ms| && Kept(ms[i]) && Lower(ms[i].extension) == k;
        if i < |init| {
          assert init[i] == ms[i];
        }
      }
    }
  }

  lemma {:induction false} ColorMapOfLastWins(ms: seq<ColorMapping>, k: string)
    ensures k in ColorMapOf(ms) ==> exists i :: LastFor(ms, k, i) && ColorMapOf(ms)[k] == ms[i].color
  {
    if ms != [] {
      var init := ms[..|ms| - 1];
      var last := ms[|ms| - 1];
      ColorMapOfLastWins(init, k);
      if Kept(last) && Lower(last.extension) == k {
        assert LastFor(ms, k, |ms| - 1);
      } else if k in ColorMapOf(init) {
        var i :| LastFor(init, k, i) && ColorMapOf(init)[k] == init[i].color;
        assert ms[i] == init[i];
        assert LastFor(ms, k, i);
      }
    }
  }

  /** Every key is lower-case. */
  lemma {:induction false} ColorMapOfKeysLower(ms: seq<ColorMapping>)
    ensures forall k :: k in ColorMapOf(ms) ==> IsLowerCase(k)
  {
    if ms != [] {
      ColorMapOfKeysLower(ms[..|ms| - 1]);
    }
  }
}
