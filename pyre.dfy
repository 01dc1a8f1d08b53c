/**
 * The part of Python's `re.match` that the hex check uses: a pattern
 * `^p1{n1}p2{n2}...$` where every piece is a literal character or a
 * character class made of ranges, repeated a fixed number of times.
 *
 * `re.match` anchors at the start of the string. Without the MULTILINE flag,
 * Python's `$` matches at the end of the string or just before a newline that
 * is the last character of the string.
 */
module PyRe {

  /** One pattern atom: a literal character, or a class `[lo1-hi1lo2-hi2...]`. */
  datatype Atom = Literal(c: char) | Class(ranges: seq<(char, char)>)

  /** `atom{count}`; a bare atom is `atom{1}`. */
  datatype Piece = Piece(atom: Atom, count: nat)

  predicate AtomMatches(a: Atom, c: char)
  {
    match a
    case Literal(l) => c == l
    case Class(ranges) => exists i :: 0 <= i < |ranges| && ranges[i].0 <= c <= ranges[i].1
  }

  /** Python's `$` without MULTILINE: the end, or one final newline. */
  predicate AtDollar(rest: string)
  {
    rest == [] || rest == ['\n']
  }

  /** `re.match("^" + pieces + "$", s)` is not None. */
  predicate Match(pieces: seq<Piece>, s: string)
    decreases |s|, |pieces|
  {
    if pieces == [] then AtDollar(s)
    else if pieces[0].count == 0 then Match(pieces[1..], s)
    else
      |s| > 0 && AtomMatches(pieces[0].atom, s[0]) &&
      Match([Piece(pieces[0].atom, pieces[0].count - 1)] + pieces[1..], s[1..])
  }

  /** A repeated first piece consumes exactly `count` characters, each matching its atom. */
  lemma {:induction false} MatchRepeat(a: Atom, n: nat, rest: seq<Piece>, s: string)
    ensures Match([Piece(a, n)] + rest, s) <==>
            |s| >= n && (forall i :: 0 <= i < n ==> AtomMatches(a, s[i])) && Match(rest, s[n..])
    decreases n
  {
    var ps := [Piece(a, n)] + rest;
    assert ps[0] == Piece(a, n) && ps[1..] == rest;
    if n > 0 && |s| > 0 {
      var t := s[1..];
      MatchRepeat(a, n - 1, rest, t);
      if |s| >= n {
        assert t[n - 1..] == s[n..];
      }
      assert (forall i :: 0 <= i < n ==> i < |s| ==> AtomMatches(a, s[i])) <==>
             AtomMatches(a, s[0]) && (forall i :: 0 <= i < n - 1 ==> i < |t| ==> AtomMatches(a, t[i])) by {
        forall i | 0 <= i < n - 1 && i < |t|
          ensures t[i] == s[i + 1]
        {
        }
      }
    }
  }
}
