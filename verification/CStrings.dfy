/** Strings that end at a NUL. */
module CStrings {

  /** What is before the first NUL, or everything if there is none. */
  function Text(s: string): string {
    if |s| == 0 || s[0] == '\0' then "" else [s[0]] + Text(s[1..])
  }

  lemma {:induction false} TextEnds(s: string, rest: string)
    requires '\0' !in s
    ensures Text(s + ['\0'] + rest) == s
  {
    if |s| == 0 {
    } else {
      TextEnds(s[1..], rest);
      assert (s + ['\0'] + rest)[1..] == s[1..] + ['\0'] + rest;
    }
  }
}
