/**
 * Joining a list of strings with a separator, as a `StringBuilder` does when a
 * separator is appended before every element but the first.
 */
module Strings {

  /** `parts` joined with `sep` between consecutive elements; "" for no parts.
      Defined from the last element backwards, the way a builder grows. */
  function Join(sep: string, parts: seq<string>): string
    decreases |parts|
  {
    if |parts| == 0 then ""
    else if |parts| == 1 then parts[0]
    else Join(sep, parts[..|parts| - 1]) + sep + parts[|parts| - 1]
  }

  /** The concatenation of all pieces, in order. */
  function Concat(pieces: seq<string>): string
    decreases |pieces|
  {
    if |pieces| == 0 then "" else Concat(pieces[..|pieces| - 1]) + pieces[|pieces| - 1]
  }

  /** Total length of all parts. */
  function SumLengths(parts: seq<string>): nat
    decreases |parts|
  {
    if |parts| == 0 then 0 else SumLengths(parts[..|parts| - 1]) + |parts[|parts| - 1]|
  }

  /** The interleaving p0, sep, p1, sep, ..., p(n-1): an independent description of
      where the separators go (even positions hold the parts, odd ones the separator). */
  function Pieces(sep: string, parts: seq<string>): seq<string>
  {
    if |parts| == 0 then []
    else seq(2 * |parts| - 1, k requires 0 <= k < 2 * |parts| - 1 => if k % 2 == 0 then parts[k / 2] else sep)
  }

  /** Appending one more part: the separator goes in front of it unless it is the first. */
  lemma JoinSnoc(sep: string, parts: seq<string>, x: string)
    ensures Join(sep, parts + [x]) == if |parts| == 0 then x else Join(sep, parts) + sep + x
  {
  }

  /** The pieces of n+1 parts extend those of the first n by the separator and the new part. */
  lemma PiecesSnoc(sep: string, parts: seq<string>)
    requires |parts| >= 2
    ensures Pieces(sep, parts) == Pieces(sep, parts[..|parts| - 1]) + [sep, parts[|parts| - 1]]
  {
    var n := |parts|;
    var ps := Pieces(sep, parts);
    var qs := Pieces(sep, parts[..n - 1]);
    assert |qs| == 2 * n - 3;
    forall k | 0 <= k < |ps| ensures ps[k] == (qs + [sep, parts[n - 1]])[k] {
      if k < |qs| {
        assert ps[k] == qs[k];
      } else if k == |qs| {
        assert k % 2 == 1;
      } else {
        assert k == 2 * (n - 1);
      }
    }
  }

  /** Where the parts and the separators sit among the pieces. */
  lemma PiecesShape(sep: string, parts: seq<string>)
    requires |parts| >= 1
    ensures |Pieces(sep, parts)| == 2 * |parts| - 1
    ensures forall i :: 0 <= i < |parts| ==> Pieces(sep, parts)[2 * i] == parts[i]
    ensures forall i :: 0 <= i < |parts| - 1 ==> Pieces(sep, parts)[2 * i + 1] == sep
  {
    var ps := Pieces(sep, parts);
    forall i | 0 <= i < |parts| ensures ps[2 * i] == parts[i] {
      assert (2 * i) % 2 == 0 && (2 * i) / 2 == i;
    }
    forall i | 0 <= i < |parts| - 1 ensures ps[2 * i + 1] == sep {
      assert (2 * i + 1) % 2 == 1;
    }
  }

  /** Join places the separator exactly between consecutive parts: the result is the
      concatenation of the interleaving p0, sep, p1, ..., p(n-1) (see PiecesShape), so
      there is no leading or trailing separator. */
  lemma {:induction false} JoinIsInterleaving(sep: string, parts: seq<string>)
    requires |parts| >= 1
    ensures Join(sep, parts) == Concat(Pieces(sep, parts))
  {
    var n := |parts|;
    var ps := Pieces(sep, parts);
    if n == 1 {
      assert ps == [parts[0]];
      assert Concat(ps) == Concat([]) + parts[0];
    } else {
      var qs := Pieces(sep, parts[..n - 1]);
      JoinIsInterleaving(sep, parts[..n - 1]);
      PiecesSnoc(sep, parts);
      assert (qs + [sep, parts[n - 1]])[..|qs| + 1] == qs + [sep];
      assert (qs + [sep])[..|qs|] == qs;
    }
  }

  /** Length of a join: every part once, plus the separator n-1 times. */
  lemma {:induction false} JoinLength(sep: string, parts: seq<string>)
    requires |parts| >= 1
    ensures |Join(sep, parts)| == SumLengths(parts) + (|parts| - 1) * |sep|
  {
    if |parts| > 1 {
      JoinLength(sep, parts[..|parts| - 1]);
    }
  }

  /** A character occurs in a join exactly when it occurs in one of the parts, or in the
      separator and at least two parts are joined. */
  lemma {:induction false} JoinChars(sep: string, parts: seq<string>, c: char)
    ensures c in Join(sep, parts) <==>
              (exists i :: 0 <= i < |parts| && c in parts[i]) || (|parts| >= 2 && c in sep)
  {
    var n := |parts|;
    if n == 1 {
      assert c in parts[0] ==> exists i :: 0 <= i < n && c in parts[i];
    } else if n > 1 {
      var init := parts[..n - 1];
      JoinChars(sep, init, c);
      var j := Join(sep, parts);
      assert j == Join(sep, init) + sep + parts[n - 1];
      if exists i :: 0 <= i < n && c in parts[i] {
        var i :| 0 <= i < n && c in parts[i];
        if i < n - 1 {
          assert init[i] == parts[i];
        }
      }
      if exists i :: 0 <= i < n - 1 && c in init[i] {
        var i :| 0 <= i < n - 1 && c in init[i];
        assert parts[i] == init[i];
      }
    }
  }
}
