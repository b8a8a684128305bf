/**
 * The per-name step of generateNormalizedJSON: keep the text before the
 * first '@' and upper-case its first character.  Upper-casing is modelled
 * for ASCII letters only; every other character is left as it is.
 */
module Normalize {
  import opened Wrappers
  import opened Lookup

  /** `name.split("@")[0]`: the text before the first '@', or all of it when there is none. */
  function LocalPart(name: string): (r: string)
    ensures '@' !in r
    ensures r <= name
    ensures r == name || name[|r|] == '@'
  {
    if name == [] || name[0] == '@' then [] else [name[0]] + LocalPart(name[1..])
  }

  /** `toUpperCase` on one ASCII character: no lower-case letter is left, and only those change. */
  function UpperAscii(c: char): (u: char)
    ensures !('a' <= u <= 'z')
    ensures u != c ==> 'a' <= c <= 'z' && 'A' <= u <= 'Z'
  {
    if 'a' <= c <= 'z' then (c as int - 32) as char else c
  }

  /** `toLowerCase` on one ASCII character. */
  function LowerAscii(c: char): char
  {
    if 'A' <= c <= 'Z' then (c as int + 32) as char else c
  }

  /** Upper-casing loses nothing on letters: lower-casing brings a-z back. */
  lemma UpperAsciiInverse(c: char)
    requires 'a' <= c <= 'z'
    ensures LowerAscii(UpperAscii(c)) == c
  {
  }

  /** Upper-casing an upper-cased character changes nothing. */
  lemma UpperAsciiIdempotent(c: char)
    ensures UpperAscii(UpperAscii(c)) == UpperAscii(c)
  {
  }

  /**
   * The normalized form of one name.  None when the local part is empty:
   * there `newName[0]` is undefined and the source throws.
   */
  function NormalizeName(name: string): (r: Option<string>)
    ensures r.None? <==> LocalPart(name) == []
    ensures r.Some? ==> |r.value| == |LocalPart(name)| && '@' !in r.value
    ensures r.Some? ==> r.value[0] == UpperAscii(name[0]) && r.value[1..] == LocalPart(name)[1..]
  {
    var local := LocalPart(name);
    if local == [] then None else Some([UpperAscii(local[0])] + local[1..])
  }

  lemma {:induction false} LocalPartOfPlain(s: string)
    requires '@' !in s
    ensures LocalPart(s) == s
  {
    if s != [] {
      assert '@' !in s[1..] by { assert forall k :: 0 <= k < |s[1..]| ==> s[1..][k] == s[k + 1]; }
      LocalPartOfPlain(s[1..]);
    }
  }

  /** Normalizing a normalized name changes nothing. */
  lemma NormalizeIdempotent(name: string)
    requires NormalizeName(name).Some?
    ensures NormalizeName(NormalizeName(name).value) == NormalizeName(name)
  {
    var r := NormalizeName(name).value;
    LocalPartOfPlain(r);
    assert [UpperAscii(r[0])] + r[1..] == r;
  }

  /** `out` is `rec` with its name normalized and every other field kept. */
  predicate NormalizedAs(rec: Employee, out: Employee)
  {
    Some(out.name) == NormalizeName(rec.name) && out == rec.(name := out.name)
  }

  /** Every record with its name normalized, other fields unchanged; None when a name cannot be. */
  function NormalizeAll(records: seq<Employee>): (r: Option<seq<Employee>>)
    ensures r.None? <==> exists i :: 0 <= i < |records| && NormalizeName(records[i].name).None?
    ensures r.Some? ==> |r.value| == |records|
    ensures r.Some? ==> forall i :: 0 <= i < |records| ==> NormalizedAs(records[i], r.value[i])
  {
    if records == [] then Some([])
    else
      match NormalizeName(records[0].name)
      case None => None
      case Some(n) =>
        match NormalizeAll(records[1..])
        case None =>
          assert exists i :: 0 <= i < |records| && NormalizeName(records[i].name).None? by {
            var i :| 0 <= i < |records[1..]| && NormalizeName(records[1..][i].name).None?;
            assert records[i + 1] == records[1..][i];
          }
          None
        case Some(rest) =>
          var out := [records[0].(name := n)] + rest;
          forall i | 1 <= i < |records| ensures NormalizedAs(records[i], out[i]) {
            assert records[i] == records[1..][i - 1] && out[i] == rest[i - 1];
          }
          Some(out)
  }
}
