/** Definitions shared by the sprite catalogue, the LUT recolouring and the animation engine. */
module Common {

  /** A Java reference that may be null: `None` stands for null. */
  datatype Option<T> = None | Some(value: T)

  /** The 24 body-part keys, in declaration order. The sprite loader files images under them
      and the animation engine keeps one view per key. */
  const BodyParts: seq<string> := [
    "base_arm_left", "base_arm_right", "base_chest", "base_head", "base_legs",
    "sleeve_left", "tool", "tool_effect", "sleeve_right", "head_gear",
    "face_gear", "hair_front", "eyes", "hair_mid", "face", "facial_hair",
    "waist", "feet", "legs", "torso", "back_gear", "hair_back",
    "head_gear_back", "base_effect"
  ]

  /** The body parts as a set: the keys of every per-part table. */
  const BodyPartSet: set<string> := set p | p in BodyParts

  /** The five structural parts a character must have sprites for. */
  const EssentialParts: seq<string> := ["base_arm_left", "base_arm_right", "base_chest", "base_head", "base_legs"]

  /** Lower-cases one character (ASCII letters only). */
  function ToLowerChar(c: char): char
  {
    if 'A' <= c <= 'Z' then (c as int + 32) as char else c
  }

  /** `String.toLowerCase`, restricted to ASCII letters. */
  function ToLower(s: string): (r: string)
    ensures |r| == |s|
    ensures forall i | 0 <= i < |s| :: r[i] == ToLowerChar(s[i])
  {
    seq(|s|, i requires 0 <= i < |s| => ToLowerChar(s[i]))
  }

  /** `String.endsWith`. */
  predicate EndsWith(s: string, suffix: string)
  {
    |suffix| <= |s| && s[|s| - |suffix|..] == suffix
  }

  /** `String.contains`: `key` occurs in `s` at some position. */
  predicate Contains(s: string, key: string)
  {
    key <= s || (s != [] && Contains(s[1..], key))
  }

  /** `key` occurs in `s` starting at index `i`. */
  predicate OccursAt(s: string, key: string, i: int)
  {
    0 <= i && i + |key| <= |s| && s[i..i + |key|] == key
  }

  /** `Contains` holds exactly when `key` occurs in `s` at some index. */
  lemma {:induction false} ContainsIsOccurrence(s: string, key: string)
    ensures Contains(s, key) <==> exists i :: OccursAt(s, key, i)
  {
    if key <= s {
      assert OccursAt(s, key, 0);
    } else if s == [] {
      assert forall i :: !OccursAt(s, key, i);
    } else {
      ContainsIsOccurrence(s[1..], key);
      forall i ensures OccursAt(s, key, i + 1) <==> OccursAt(s[1..], key, i) {
        if 0 <= i && i + 1 + |key| <= |s| {
          assert s[i + 1..i + 1 + |key|] == s[1..][i..i + |key|];
        }
      }
      if Contains(s[1..], key) {
        var i :| OccursAt(s[1..], key, i);
        assert OccursAt(s, key, i + 1);
      } else {
        forall i ensures !OccursAt(s, key, i) {
          if i > 0 {
            assert !OccursAt(s[1..], key, i - 1);
          }
        }
      }
    }
  }
}
