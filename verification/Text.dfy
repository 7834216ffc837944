/** Substrings. */
module Text {

  predicate OccursAt(s: string, part: string, i: nat)
    requires i + |part| <= |s|
  {
    s[i..i + |part|] == part
  }

  /** Python's `part in s`. */
  predicate Contains(s: string, part: string) {
    exists i :: 0 <= i <= |s| - |part| && OccursAt(s, part, i)
  }

  /** The forms by which a term can be recognised: its name and aliases, without those of a single character. */
  function SurfaceFormsOf(name: string, aliases: seq<string>): (forms: seq<string>)
    ensures forall f :: f in forms <==> (f == name || f in aliases) && |f| >= 2
  {
    LongForms([name] + aliases)
  }

  function LongForms(s: seq<string>): (r: seq<string>)
    ensures forall f :: f in r <==> f in s && |f| >= 2
  {
    if s == [] then [] else LongForms(s[..|s| - 1]) + if |s[|s| - 1]| >= 2 then [s[|s| - 1]] else []
  }

  /** A substring can be cut out of the text. */
  lemma ContainsMeans(s: string, part: string)
    ensures Contains(s, part) <==> exists a, b :: s == a + part + b
  {
    if Contains(s, part) {
      var i :| 0 <= i <= |s| - |part| && OccursAt(s, part, i);
      assert s == s[..i] + part + s[i + |part|..];
    }
    forall a: string, b: string | s == a + part + b ensures Contains(s, part) {
      assert OccursAt(s, part, |a|);
    }
  }
}
