/**
 * The JavaScript string operations the scraper relies on:
 * `String.prototype.split` with a one-character separator and
 * `slice(0, n)`. `IndexOf` is not called by the scraper; it names the
 * first separator in the contracts about `split`.
 */
module JsText {

  /** `s.split(sep)`: the pieces of `s` between occurrences of `sep`, in order. */
  function Split(s: string, sep: char): (parts: seq<string>)
    ensures |parts| >= 1
  {
    if s == [] then [""]
    else
      var rest := Split(s[1..], sep);
      if s[0] == sep then [""] + rest else [[s[0]] + rest[0]] + rest[1..]
  }

  /** `parts.join(sep)`, the inverse of Split. */
  function Join(parts: seq<string>, sep: char): string
    requires |parts| >= 1
  {
    if |parts| == 1 then parts[0] else parts[0] + [sep] + Join(parts[1..], sep)
  }

  /** `s.indexOf(c)`: the first position of `c`, or -1. */
  function IndexOf(s: string, c: char): (i: int)
    ensures -1 <= i < |s|
    ensures i == -1 <==> c !in s
    ensures i >= 0 ==> s[i] == c && c !in s[..i]
  {
    if s == [] then -1
    else if s[0] == c then 0
    else
      var j := IndexOf(s[1..], c);
      assert s[1..][..if j < 0 then 0 else j] == s[1..1 + if j < 0 then 0 else j];
      if j < 0 then -1 else j + 1
  }

  /** `s.slice(0, n)` for n >= 0: the first n characters, or all of s if it is shorter. */
  function Prefix(s: string, n: nat): (r: string)
    ensures |r| <= n && r <= s
    ensures |r| == n || r == s
  {
    if |s| <= n then s else s[..n]
  }

  /** Splitting and joining again gives back the string, and no piece holds the separator. */
  lemma {:induction false} SplitJoin(s: string, sep: char)
    ensures Join(Split(s, sep), sep) == s
    ensures forall k :: 0 <= k < |Split(s, sep)| ==> sep !in Split(s, sep)[k]
  {
    if s != [] {
      var rest := Split(s[1..], sep);
      SplitJoin(s[1..], sep);
      if s[0] == sep {
        assert Split(s, sep)[1..] == rest;
        assert Join(Split(s, sep), sep) == "" + [sep] + Join(rest, sep);
        assert s == [s[0]] + s[1..];
      } else {
        var parts := Split(s, sep);
        assert parts[0] == [s[0]] + rest[0];
        assert forall k :: 1 <= k < |parts| ==> parts[k] == rest[k];
        if |rest| == 1 {
          assert Join(parts, sep) == [s[0]] + rest[0];
        } else {
          assert parts[1..] == rest[1..];
          assert Join(rest, sep) == rest[0] + [sep] + Join(rest[1..], sep);
          assert Join(parts, sep) == [s[0]] + rest[0] + [sep] + Join(rest[1..], sep);
        }
        assert s == [s[0]] + s[1..];
      }
    }
  }

  /** The first piece is everything before the first separator; the remaining
      pieces are those of the text after it. */
  lemma {:induction false} SplitPieces(s: string, sep: char)
    ensures var i := IndexOf(s, sep);
      && (i == -1 ==> Split(s, sep) == [s])
      && (i >= 0 ==> Split(s, sep)[0] == s[..i] && Split(s, sep)[1..] == Split(s[i + 1..], sep))
  {
    if s == [] {
    } else if s[0] == sep {
      assert IndexOf(s, sep) == 0;
      assert Split(s, sep) == [""] + Split(s[1..], sep);
    } else {
      var rest := Split(s[1..], sep);
      var j := IndexOf(s[1..], sep);
      SplitPieces(s[1..], sep);
      assert Split(s, sep) == [[s[0]] + rest[0]] + rest[1..];
      if j >= 0 {
        assert IndexOf(s, sep) == j + 1;
        assert s[1..][j + 1..] == s[j + 2..];
        assert s[..j + 1] == [s[0]] + s[1..][..j];
      } else {
        assert IndexOf(s, sep) == -1;
        assert rest == [s[1..]];
        assert s == [s[0]] + s[1..];
      }
    }
  }

  /** The first piece is a prefix of the string that stops at the first separator. */
  lemma FirstPiece(s: string, sep: char)
    ensures var p := Split(s, sep)[0];
      p <= s && sep !in p && (|p| == |s| || s[|p|] == sep)
  {
    SplitPieces(s, sep);
  }

  /** There is a second piece exactly when the separator occurs. */
  lemma SplitHasSecondPiece(s: string, sep: char)
    ensures |Split(s, sep)| >= 2 <==> sep in s
  {
    SplitPieces(s, sep);
    var i := IndexOf(s, sep);
    if i >= 0 {
      assert |Split(s, sep)| == 1 + |Split(s[i + 1..], sep)|;
    }
  }
}
