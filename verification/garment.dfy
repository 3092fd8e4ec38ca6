/**
 * Garment-class configuration: a shirt is "model-worn" when its file name,
 * lower-cased, contains "model"; the five placement parameters are then all
 * taken from the model sliders, otherwise all from the plain-shirt sliders.
 * Line numbers in this module refer to `mockup_generator.py`.
 */
module GarmentClass {
  import opened PyText
  import opened Placement

  /** The two named configurations the sidebar holds. */
  datatype Settings = Settings(plain: Config, model: Config)

  /** `"model" in name.lower()`. */
  function IsModel(fileName: string): bool
  {
    HasSubstring(Lower(fileName), "model")
  }

  /** The configuration for one shirt: one class supplies every parameter. */
  function Select(settings: Settings, fileName: string): (c: Config)
    ensures c == settings.model || c == settings.plain
    ensures IsModel(fileName) ==> c == settings.model
    ensures !IsModel(fileName) ==> c == settings.plain
  {
    if IsModel(fileName) then settings.model else settings.plain
  }

  /**
   * Lines 148 and 200: a shirt is model-worn exactly when "model" occurs
   * somewhere in its lower-cased name.
   */
  lemma IsModelIff(fileName: string)
    ensures IsModel(fileName) <==> exists i :: OccursAt("model", Lower(fileName), i)
  {
    HasSubstringIff(Lower(fileName), "model");
  }

  /** The test ignores ASCII case: names equal up to case select the same configuration. */
  lemma SelectIgnoresCase(settings: Settings, a: string, b: string)
    requires Lower(a) == Lower(b)
    ensures Select(settings, a) == Select(settings, b)
    ensures IsModel(Lower(a)) == IsModel(a)
  {
    LowerIdempotent(a);
  }

  /** A name with no `m` or `M` in it never denotes a model-worn shirt. */
  lemma NoLetterMIsPlain(name: string)
    requires forall k :: 0 <= k < |name| ==> name[k] != 'm' && name[k] != 'M'
    ensures !IsModel(name)
  {
    var s := Lower(name);
    IsModelIff(name);
    forall i
      ensures !OccursAt("model", s, i)
    {
      if 0 <= i && i + 5 <= |s| {
        assert s[i .. i + 5][0] == s[i] == LowerChar(name[i]);
      }
    }
  }

  /** Any casing of "model" anywhere in the name marks the shirt as model-worn. */
  lemma ModelInAnyCase(before: string, word: string, after: string)
    requires Lower(word) == "model"
    ensures IsModel(before + word + after)
  {
    var name := before + word + after;
    var i := |before|;
    assert Lower(name)[i .. i + 5] == Lower(word) by {
      forall k | 0 <= k < 5
        ensures Lower(name)[i .. i + 5][k] == Lower(word)[k]
      {
        assert name[i + k] == word[k];
      }
    }
    assert OccursAt("model", Lower(name), i);
    IsModelIff(name);
  }

  lemma UpperCaseModelName()
    ensures IsModel("Black_" + "MODEL" + ".png")
  {
    assert Lower("MODEL") == "model";
    ModelInAnyCase("Black_", "MODEL", ".png");
  }

  lemma PlainName()
    ensures !IsModel("white_plain.png")
  {
    NoLetterMIsPlain("white_plain.png");
  }
}
