/** The string operations the components share: splitting at a separator, case folding, trimming, ordering. */
module Text {

  /** Cuts a text at every separator; there is always at least one piece. */
  function Pieces(s: string, sep: char): (parts: seq<string>)
    ensures |parts| >= 1
  {
    if s == "" then [""]
    else
      var rest := Pieces(s[1..], sep);
      if s[0] == sep then [""] + rest else [[s[0]] + rest[0]] + rest[1..]
  }

  /** The tokens of a text: all pieces, empty ones included, except that the empty text has none. */
  function Tokens(s: string, sep: char): seq<string> {
    if s == "" then [] else Pieces(s, sep)
  }

  function Join(parts: seq<string>, sep: char): string
    requires parts != []
  {
    if |parts| == 1 then parts[0] else parts[0] + [sep] + Join(parts[1..], sep)
  }

  lemma {:induction false} PiecesOfJoin(parts: seq<string>, sep: char)
    requires parts != [] && forall i :: 0 <= i < |parts| ==> sep !in parts[i]
    ensures Pieces(Join(parts, sep), sep) == parts
    decreases |parts|, |parts[0]|
  {
    var s := Join(parts, sep);
    if parts[0] == "" {
      if |parts| > 1 {
        PiecesOfJoin(parts[1..], sep);
        assert s == [sep] + Join(parts[1..], sep);
        assert [""] + parts[1..] == parts;
      }
    } else {
      var shorter := [parts[0][1..]] + parts[1..];
      PiecesOfJoin(shorter, sep);
      assert |parts| > 1 ==> shorter[1..] == parts[1..];
      assert s == [parts[0][0]] + Join(shorter, sep);
      assert s[1..] == Join(shorter, sep);
      assert parts[0] == [parts[0][0]] + shorter[0];
      assert [parts[0]] + shorter[1..] == parts;
    }
  }

  lemma {:induction false} JoinOfPieces(s: string, sep: char)
    ensures Join(Pieces(s, sep), sep) == s
    ensures forall i :: 0 <= i < |Pieces(s, sep)| ==> sep !in Pieces(s, sep)[i]
  {
    if s != "" {
      JoinOfPieces(s[1..], sep);
      var rest := Pieces(s[1..], sep);
      var parts := Pieces(s, sep);
      if s[0] == sep {
        assert parts[1..] == rest;
      } else {
        assert |rest| > 1 ==> parts[1..] == rest[1..];
      }
    }
  }

  function LowerChar(c: char): char {
    if 'A' <= c <= 'Z' then c - 'A' + 'a' else c
  }

  function ToLower(s: string): (r: string)
    ensures |r| == |s|
  {
    seq(|s|, i requires 0 <= i < |s| => LowerChar(s[i]))
  }

  lemma ToLowerIdempotent(s: string)
    ensures ToLower(ToLower(s)) == ToLower(s)
  {
  }

  predicate IsSpace(c: char) {
    c == ' ' || '\t' <= c <= '\r'
  }

  function TrimLeft(s: string): string {
    if s != "" && IsSpace(s[0]) then TrimLeft(s[1..]) else s
  }

  function TrimRight(s: string): string {
    if s != "" && IsSpace(s[|s| - 1]) then TrimRight(s[..|s| - 1]) else s
  }

  function Trim(s: string): string {
    TrimRight(TrimLeft(s))
  }

  // ---------- The order in which a map with text keys is walked ----------

  predicate Leq(a: string, b: string) {
    a == "" || (b != "" && (a[0] < b[0] || (a[0] == b[0] && Leq(a[1..], b[1..]))))
  }

  lemma {:induction false} LeqTotal(a: string, b: string)
    ensures Leq(a, b) || Leq(b, a)
  {
    if a != "" && b != "" && a[0] == b[0] {
      LeqTotal(a[1..], b[1..]);
    }
  }

  lemma {:induction false} LeqAntisymmetric(a: string, b: string)
    requires Leq(a, b) && Leq(b, a)
    ensures a == b
  {
    if a != "" {
      LeqAntisymmetric(a[1..], b[1..]);
      assert a == [a[0]] + a[1..] && b == [b[0]] + b[1..];
    }
  }

  lemma {:induction false} LeqTransitive(a: string, b: string, c: string)
    requires Leq(a, b) && Leq(b, c)
    ensures Leq(a, c)
  {
    if a != "" && a[0] == b[0] && b[0] == c[0] {
      LeqTransitive(a[1..], b[1..], c[1..]);
    }
  }

  predicate IsLeast(s: set<string>, least: string) {
    least in s && forall x :: x in s ==> Leq(least, x)
  }

  lemma {:induction false} LeastExists(s: set<string>) returns (least: string)
    requires s != {}
    ensures IsLeast(s, least)
  {
    var x :| x in s;
    var rest := s - {x};
    if rest == {} {
      least := x;
      LeqTotal(x, x);
      assert s == {x};
    } else {
      var y := LeastExists(rest);
      LeqTotal(x, y);
      LeqTotal(x, x);
      least := if Leq(x, y) then x else y;
      forall z | z in s ensures Leq(least, z) {
        if z != x {
          assert z in rest;
          if least == x {
            LeqTransitive(x, y, z);
          }
        }
      }
    }
  }
}
