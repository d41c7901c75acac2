/** Strings as C has them: characters up to a NUL. */
module CStrings {

  /** What lies in memory from the start of a string up to and including its only NUL. */
  ghost predicate Terminated<T>(s: seq<T>, nul: T) {
    0 < |s| && forall i | 0 <= i < |s| :: s[i] == nul <==> i == |s| - 1
  }

  /** The string that starts at index `i` of a piece of memory. */
  function CString(m: string, i: nat): string
    requires i <= |m|
    decreases |m| - i
  {
    if i == |m| || m[i] == '\0' then "" else [m[i]] + CString(m, i + 1)
  }
}
