/**
 * The mapping between the exercise name kept in the page URL and the JSON
 * file it is loaded from (quiz-system.js `exerciseNameToFile` and
 * `fileToExerciseName`).
 */
module ExerciseFiles {
  import opened Wrappers
  import opened Text

  const Extension: string := ".json"

  /** Appends ".json" unless the name already contains it anywhere. */
  function ExerciseNameToFile(name: string): (file: string)
    ensures Contains(name, Extension) ==> file == name
    ensures !Contains(name, Extension) ==> file == name + Extension
  {
    if Contains(name, Extension) then name else name + Extension
  }

  /** Removes the first ".json" found in the file name, if any. */
  function FileToExerciseName(file: string): (name: string)
    ensures !Contains(file, Extension) ==> name == file
    ensures Contains(file, Extension) ==>
      var k := IndexOf(file, Extension).value;
      && OccursAt(file, Extension, k)
      && (forall m :: 0 <= m < k ==> !OccursAt(file, Extension, m))
      && name == file[..k] + file[k + |Extension|..]
      && |name| == |file| - |Extension|
  {
    ReplaceFirst(file, Extension, "")
  }

  /** Every file name the conversion produces contains ".json". */
  lemma FileNameHasExtension(name: string)
    ensures Contains(ExerciseNameToFile(name), Extension)
  {
    if !Contains(name, Extension) {
      var f := name + Extension;
      assert f[|name|..|name| + |Extension|] == Extension;
      ContainsWitness(f, Extension, |name|);
    }
  }

  /** Converting a name twice gives the same file as converting it once. */
  lemma NameToFileIdempotent(name: string)
    ensures ExerciseNameToFile(ExerciseNameToFile(name)) == ExerciseNameToFile(name)
  {
    FileNameHasExtension(name);
  }

  /**
   * ".json" cannot start before the appended suffix: it does not occur inside
   * `name`, and an occurrence overlapping the suffix would need a '.' among
   * the suffix letters "json".
   */
  lemma FirstExtensionIsSuffix(name: string)
    requires !Contains(name, Extension)
    ensures IndexOf(name + Extension, Extension) == Some(|name|)
  {
    var f := name + Extension;
    forall k: nat | k < |name|
      ensures !OccursAt(f, Extension, k)
    {
      if k + |Extension| <= |name| {
        assert f[k..k + |Extension|] == name[k..k + |Extension|];
        assert !OccursAt(name, Extension, k);
      } else {
        var off := |name| - k;
        assert f[|name|] == '.';
        assert Extension[off] != '.';
        assert k + |Extension| <= |f| ==> f[k..k + |Extension|][off] == '.';
      }
    }
    assert f[|name|..|name| + |Extension|] == Extension;
    assert OccursAt(f, Extension, |name|);
    var r := IndexOf(f, Extension);
    assert r.Some? && r.value == |name|;
  }

  /** A name without ".json" survives the trip to a file name and back. */
  lemma NameFileRoundTrip(name: string)
    requires !Contains(name, Extension)
    ensures FileToExerciseName(ExerciseNameToFile(name)) == name
  {
    var f := name + Extension;
    FirstExtensionIsSuffix(name);
    assert f[..|name|] == name;
    assert f[|name| + |Extension|..] == [];
  }
}
