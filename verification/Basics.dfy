/** What several models need: optional values, strings as C has them, and the regrouping of sequences. */
module Basics {
  datatype Option<+T> = None | Some(value: T)

  // What a C string reads at an index: the terminator, once past the characters.
  function At(s: string, i: nat): char
  {
    if i < |s| then s[i] else '\0'
  }

  method Terminate(buffer: array<char>, end: nat)
    requires end < buffer.Length
    modifies buffer
    ensures buffer[..end] == old(buffer[..end]) && buffer[end] == '\0'
  {
    buffer[end] := '\0';
  }

  lemma Regrouped<T>(a: seq<T>, b: seq<T>, c: seq<T>)
    ensures a + b + c == a + (b + c)
  {
  }
}
