/** Joining lines with a separator (JavaScript's `Array.prototype.join`,
    Python's `str.join`) and splitting them apart again, so that the shape of
    a rendered reply can be stated line by line. */
module Text {

  /** `ls` glued together with `sep` between neighbours: no leading or
      trailing separator, and the empty sequence gives the empty string. */
  function Join(ls: seq<string>, sep: char): (r: string)
    ensures |ls| == 0 ==> r == ""
    ensures |ls| > 0 ==> |r| >= |ls[0]| && r[..|ls[0]|] == ls[0]
    ensures |ls| > 0 ==> |r| >= |ls[|ls| - 1]| && r[|r| - |ls[|ls| - 1]|..] == ls[|ls| - 1]
  {
    if |ls| == 0 then ""
    else if |ls| == 1 then ls[0]
    else ls[0] + [sep] + Join(ls[1..], sep)
  }

  /** `s` cut at every `sep`, as JavaScript's `String.prototype.split`:
      n separators give n + 1 pieces, none of which contains `sep`. */
  function Split(s: string, sep: char): (r: seq<string>)
    ensures |r| >= 1
    ensures forall i :: 0 <= i < |r| ==> sep !in r[i]
  {
    if s == [] then [""]
    else
      var rest := Split(s[1..], sep);
      if s[0] == sep then [""] + rest
      else [[s[0]] + rest[0]] + rest[1..]
  }

  lemma {:induction false} SplitWithoutSeparator(l: string, sep: char)
    requires sep !in l
    ensures Split(l, sep) == [l]
  {
    if l != [] {
      SplitWithoutSeparator(l[1..], sep);
      assert [l[0]] + l[1..] == l;
    }
  }

  lemma {:induction false} SplitAtSeparator(l: string, sep: char, rest: string)
    requires sep !in l
    ensures Split(l + [sep] + rest, sep) == [l] + Split(rest, sep)
  {
    if l == [] {
      assert (l + [sep] + rest)[1..] == rest;
    } else {
      assert (l + [sep] + rest)[1..] == l[1..] + [sep] + rest;
      SplitAtSeparator(l[1..], sep, rest);
      assert [l[0]] + l[1..] == l;
    }
  }

  /** Splitting undoes joining when no line contains the separator: the
      rendered text has exactly one piece per line, in order. */
  lemma {:induction false} SplitJoin(ls: seq<string>, sep: char)
    requires |ls| >= 1
    requires forall i :: 0 <= i < |ls| ==> sep !in ls[i]
    ensures Split(Join(ls, sep), sep) == ls
  {
    if |ls| == 1 {
      SplitWithoutSeparator(ls[0], sep);
    } else {
      SplitJoin(ls[1..], sep);
      SplitAtSeparator(ls[0], sep, Join(ls[1..], sep));
      assert [ls[0]] + ls[1..] == ls;
    }
  }

  /** Appending a line to a non-empty list appends one separator and that line. */
  lemma {:induction false} JoinSnoc(ls: seq<string>, l: string, sep: char)
    requires |ls| >= 1
    ensures Join(ls + [l], sep) == Join(ls, sep) + [sep] + l
  {
    if |ls| > 1 {
      assert (ls + [l])[1..] == ls[1..] + [l];
      JoinSnoc(ls[1..], l, sep);
    }
  }

  /** Putting a line in front of a non-empty list puts it and one separator
      in front of the joined text. */
  lemma JoinCons(l: string, ls: seq<string>, sep: char)
    requires |ls| >= 1
    ensures Join([l] + ls, sep) == l + [sep] + Join(ls, sep)
  {
    assert ([l] + ls)[1..] == ls;
  }
}
