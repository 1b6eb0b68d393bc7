/** The slug that the reconciliation engine actually uses (sync/slugify.ts):
    the name lower-cased, each space turned into one dash, nothing else. */
module Slugify {
  import opened Base

  /** `name.toLowerCase().replace(/ /g, '-')`. */
  function Slugify(name: string): (r: string)
    ensures |r| == |name|
    ensures forall i :: 0 <= i < |r| ==> r[i] != ' ' && !IsAsciiUpper(r[i])
    ensures forall i :: 0 <= i < |name| && name[i] == ' ' ==> r[i] == '-'
    ensures forall i :: 0 <= i < |name| && IsAsciiUpper(name[i]) ==> r[i] == Lower(name[i])
    ensures forall i :: 0 <= i < |name| && name[i] != ' ' && !IsAsciiUpper(name[i]) ==> r[i] == name[i]
  {
    if name == [] then [] else [if name[0] == ' ' then '-' else Lower(name[0])] + Slugify(name[1..])
  }

  /** Slugifying a slug changes nothing. */
  lemma {:induction false} SlugifyIdempotent(name: string)
    ensures Slugify(Slugify(name)) == Slugify(name)
  {
    var r := Slugify(name);
    var rr := Slugify(r);
    forall i | 0 <= i < |r|
      ensures rr[i] == r[i]
    {
      assert r[i] != ' ' && !IsAsciiUpper(r[i]);
    }
  }

  function CountOf(s: string, c: char): nat
  {
    if s == [] then 0 else (if s[0] == c then 1 else 0) + CountOf(s[1..], c)
  }

  /** Dashes are never collapsed: the output has one dash per input space
      plus one per input dash. */
  lemma {:induction false} DashesNotCollapsed(name: string)
    ensures CountOf(Slugify(name), '-') == CountOf(name, ' ') + CountOf(name, '-')
  {
    if name != [] {
      DashesNotCollapsed(name[1..]);
      var r := Slugify(name);
      assert r[1..] == Slugify(name[1..]);
    }
  }

  lemma SlugifyKeepsDashRun()
    ensures Slugify("a  b") == "a--b"
  {
    var r := Slugify("a  b");
    assert r[0] == 'a' && r[1] == '-' && r[2] == '-' && r[3] == 'b';
  }

  lemma SlugifyKeepsPunctuation()
    ensures Slugify("My Doc!!") == "my-doc!!"
  {
    var r := Slugify("My Doc!!");
    assert r[0] == 'm' && r[1] == 'y' && r[2] == '-' && r[3] == 'd';
    assert r[4] == 'o' && r[5] == 'c' && r[6] == '!' && r[7] == '!';
  }
}
