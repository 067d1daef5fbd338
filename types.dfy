/** Shared value types of the TouchMouse model. */
module Types {

  /** A C `uint8_t`. */
  type byte = x: int | 0 <= x < 256

  datatype Option<+T> = None | Some(value: T)

  lemma AppendAssociates<T>(a: seq<T>, b: seq<T>, c: seq<T>)
    ensures (a + b) + c == a + (b + c)
  {
  }

  lemma SplitAt<T>(s: seq<T>, i: nat)
    requires i <= |s|
    ensures s[..i] + s[i..] == s
  {
  }

  lemma PrefixOfPrefix<T>(s: seq<T>, i: nat, j: nat)
    requires i <= j <= |s|
    ensures s[..j][..i] == s[..i]
  {
  }

  lemma PrefixSplit<T>(a: seq<T>, b: seq<T>)
    requires a <= b
    ensures a + b[|a|..] == b
  {
  }
}
