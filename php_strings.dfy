/**
 * PHP's `explode` and its inverse `implode`, on a single-character
 * separator. `explode(':', $decoded)[0]` is how the controller takes the
 * identity claim out of a decoded simplified-mode token.
 */
module PhpStrings {

  /** PHP `implode(sep, parts)`: the parts with `sep` between each two neighbours. */
  function Implode(sep: char, parts: seq<string>): string
  {
    if |parts| == 0 then ""
    else if |parts| == 1 then parts[0]
    else parts[0] + [sep] + Implode(sep, parts[1..])
  }

  /** Prepending a character to the first part prepends it to the joined string. */
  lemma ImplodeExtendHead(sep: char, c: char, parts: seq<string>)
    requires |parts| >= 1
    ensures Implode(sep, [[c] + parts[0]] + parts[1..]) == [c] + Implode(sep, parts)
  {
    var q := [[c] + parts[0]] + parts[1..];
    assert q[1..] == parts[1..];
  }

  /**
   * PHP `explode(sep, s)` with the default limit: the pieces of `s` between
   * the occurrences of `sep`. The empty string gives one empty piece.
   */
  function Explode(sep: char, s: string): (r: seq<string>)
    ensures |r| >= 1
    ensures forall i :: 0 <= i < |r| ==> sep !in r[i]
    ensures Implode(sep, r) == s
    decreases |s|
  {
    if |s| == 0 then [""]
    else
      var rest := Explode(sep, s[1..]);
      if s[0] == sep then
        assert ([""] + rest)[1..] == rest;
        [""] + rest
      else
        ImplodeExtendHead(sep, s[0], rest);
        [[s[0]] + rest[0]] + rest[1..]
  }

  /** Explode undoes Implode on pieces free of the separator. */
  lemma {:induction false} ExplodeImplode(sep: char, parts: seq<string>)
    requires |parts| >= 1
    requires forall i :: 0 <= i < |parts| ==> sep !in parts[i]
    ensures Explode(sep, Implode(sep, parts)) == parts
    decreases |Implode(sep, parts)|
  {
    var s := Implode(sep, parts);
    if |parts| == 1 {
      if |s| > 0 {
        var tail := [parts[0][1..]];
        assert Implode(sep, tail) == s[1..];
        ExplodeImplode(sep, tail);
        assert s == parts[0] == [s[0]] + tail[0];
        assert parts == [[s[0]] + tail[0]] + tail[1..];
      }
    } else if parts[0] == "" {
      assert s == [sep] + Implode(sep, parts[1..]);
      assert s[1..] == Implode(sep, parts[1..]);
      ExplodeImplode(sep, parts[1..]);
      assert parts == [""] + parts[1..];
    } else {
      var tail := [parts[0][1..]] + parts[1..];
      assert s[0] == parts[0][0];
      assert tail[1..] == parts[1..];
      assert parts[0] == [s[0]] + tail[0];
      assert Implode(sep, tail) == s[1..];
      forall i | 0 <= i < |tail| ensures sep !in tail[i] {
        if i == 0 {
          assert forall k :: 0 <= k < |tail[0]| ==> tail[0][k] == parts[0][k + 1];
        } else {
          assert tail[i] == parts[i];
        }
      }
      ExplodeImplode(sep, tail);
      assert parts == [[s[0]] + tail[0]] + tail[1..];
    }
  }

  /** The first part is a prefix of the joined string, followed by `sep` or the end. */
  lemma ImplodeHead(sep: char, parts: seq<string>)
    requires |parts| >= 1
    ensures parts[0] <= Implode(sep, parts)
    ensures |parts| == 1 ==> Implode(sep, parts) == parts[0]
    ensures |parts| >= 2 ==>
              |Implode(sep, parts)| > |parts[0]| && Implode(sep, parts)[|parts[0]|] == sep
  {
    if |parts| >= 2 {
      var s := Implode(sep, parts);
      assert s == parts[0] + ([sep] + Implode(sep, parts[1..]));
    }
  }

  /** `explode(sep, s)[0]`: the part of `s` before the first `sep`, or all of `s`. */
  function FirstPiece(sep: char, s: string): (p: string)
    ensures p <= s && sep !in p
    ensures |p| == |s| || s[|p|] == sep
  {
    ImplodeHead(sep, Explode(sep, s));
    Explode(sep, s)[0]
  }

  /** The three facts above determine the first piece. */
  lemma FirstPieceUnique(sep: char, s: string, p: string)
    requires p <= s && sep !in p
    requires |p| == |s| || s[|p|] == sep
    ensures p == FirstPiece(sep, s)
  {
    var c := FirstPiece(sep, s);
    assert |p| == |c|;
    assert p == s[..|p|] == c;
  }

  /** Without a separator the first piece is the whole string. */
  lemma FirstPieceWithoutSeparator(sep: char, s: string)
    requires sep !in s
    ensures FirstPiece(sep, s) == s
  {
    FirstPieceUnique(sep, s, s);
  }

  /** With a separator the first piece is the text before the first one. */
  lemma FirstPieceBeforeSeparator(sep: char, e: string, rest: string)
    requires sep !in e
    ensures FirstPiece(sep, e + [sep] + rest) == e
  {
    var s := e + [sep] + rest;
    assert s[|e|] == sep;
    assert e <= s;
    FirstPieceUnique(sep, s, e);
  }
}
