/** The string operations used to normalise a requested page identifier:
    ASCII lower-casing, and splitting on one character then joining with another. */
module Ascii {

  /** Lower-cases one character; only the ASCII letters A-Z change. */
  function LowerChar(c: char): char {
    if 'A' <= c <= 'Z' then (c as int + 32) as char else c
  }

  /** `String.prototype.toLowerCase`, restricted to ASCII letters. */
  function Lower(s: string): string
  {
    seq(|s|, i requires 0 <= i < |s| => LowerChar(s[i]))
  }

  /** Every occurrence of `from` in `s` replaced by `to`. */
  function Replace(s: string, from: char, to: char): string
  {
    seq(|s|, i requires 0 <= i < |s| => if s[i] == from then to else s[i])
  }

  /** `s.split(d)`: the maximal runs between occurrences of `d`; never empty,
      and the empty string splits into one empty part. */
  function Split(s: string, d: char): (parts: seq<string>)
    ensures |parts| >= 1
    decreases |s|
  {
    if |s| == 0 then [""]
    else
      var rest := Split(s[1..], d);
      if s[0] == d then [""] + rest
      else [[s[0]] + rest[0]] + rest[1..]
  }

  /** `parts.join(sep)`: the parts in order with `sep` between neighbours. */
  function Join(parts: seq<string>, sep: string): string
    decreases |parts|
  {
    if |parts| == 0 then ""
    else if |parts| == 1 then parts[0]
    else parts[0] + sep + Join(parts[1..], sep)
  }

  /** Prefixing the first part with a character prefixes the joined string with it. */
  lemma JoinConsFirst(c: char, parts: seq<string>, sep: string)
    requires |parts| >= 1
    ensures Join([[c] + parts[0]] + parts[1..], sep) == [c] + Join(parts, sep)
  {
  }

  /** Splitting on `d` and joining with the one-character string `[e]` replaces
      every `d` by `e`: the idiom `s.split('_').join(' ')` is a character substitution. */
  lemma {:induction false} JoinSplitIsReplace(s: string, d: char, e: char)
    ensures Join(Split(s, d), [e]) == Replace(s, d, e)
    decreases |s|
  {
    if |s| == 0 {
    } else {
      var rest := Split(s[1..], d);
      JoinSplitIsReplace(s[1..], d, e);
      assert Replace(s, d, e) == [if s[0] == d then e else s[0]] + Replace(s[1..], d, e);
      if s[0] == d {
        assert ([""] + rest)[1..] == rest;
      } else {
        JoinConsFirst(s[0], rest, [e]);
      }
    }
  }
}
