/** Small shared vocabulary: optional values, bytes, and substring search. */
module Common {

  /** A value that may be absent (a missing query parameter, header or form field). */
  datatype Option<+T> = None | Some(value: T) {

    /** The wrapped value, or `default` when absent (Python's `dict.get(k, default)`). */
    function GetOr(default: T): T {
      match this
      case Some(v) => v
      case None => default
    }
  }

  newtype byte = x: int | 0 <= x < 0x100

  type Bytes = seq<byte>

  /** The substring test `needle in s`, written as a left-to-right scan. */
  predicate Contains(s: string, needle: string)
    decreases |s|
  {
    if |s| < |needle| then false
    else s[..|needle|] == needle || Contains(s[1..], needle)
  }

  /** `needle` occurs in `s` at position `i`. */
  predicate OccursAt(s: string, needle: string, i: int) {
    0 <= i && i + |needle| <= |s| && s[i..i + |needle|] == needle
  }

  /** The scan finds `needle` exactly when it occurs somewhere in `s`. */
  lemma {:induction false} ContainsIff(s: string, needle: string)
    ensures Contains(s, needle) <==> exists i :: OccursAt(s, needle, i)
    decreases |s|
  {
    if |s| < |needle| {
      assert forall i :: !OccursAt(s, needle, i);
    } else if s[..|needle|] == needle {
      assert OccursAt(s, needle, 0);
    } else {
      ContainsIff(s[1..], needle);
      forall i | OccursAt(s[1..], needle, i)
        ensures OccursAt(s, needle, i + 1)
      {
        assert s[i + 1..i + 1 + |needle|] == s[1..][i..i + |needle|];
      }
      forall i | OccursAt(s, needle, i)
        ensures OccursAt(s[1..], needle, i - 1)
      {
        assert i != 0;
        assert s[1..][i - 1..i - 1 + |needle|] == s[i..i + |needle|];
      }
    }
  }
}
