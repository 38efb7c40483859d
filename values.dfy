/** Values a CSV record can hold while it is normalised, the Python errors the
    normaliser can raise, and `str.replace("'", "")` on strings. */
module Values {

  /** A field of a record: the string the CSV reader produced, or the int `0`
      that normalisation writes over a falsy field. */
  datatype Value = Str(s: string) | Zero

  /** Python truthiness of a field: the empty string and the int 0 are falsy. */
  predicate Falsy(v: Value) {
    v == Str("") || v == Zero
  }

  /** The text a value contributes when it is interpolated into an f-string. */
  function Literal(v: Value): string {
    match v
    case Str(s) => s
    case Zero => "0"
  }

  /** The exceptions the normaliser can raise: a missing dictionary key, and
      calling `.replace` on the int 0. */
  datatype PyError = KeyError(key: string) | AttributeError

  datatype Option<+T> = None | Some(value: T)

  datatype Result<+T> = Ok(value: T) | Err(error: PyError)

  const Apostrophe: char := '\''

  /** Number of occurrences of `c` in `s`. */
  function Count(s: string, c: char): (n: nat)
    ensures n <= |s|
    ensures n == 0 <==> c !in s
  {
    if s == [] then 0 else (if s[0] == c then 1 else 0) + Count(s[1..], c)
  }

  /** `s.replace("'", "")`: every apostrophe removed, the other characters kept
      in order. */
  function StripApostrophes(s: string): (r: string)
    ensures Apostrophe !in r
    ensures |r| == |s| - Count(s, Apostrophe)
  {
    if s == [] then []
    else (if s[0] == Apostrophe then [] else [s[0]]) + StripApostrophes(s[1..])
  }

  /** A string is left alone by the stripping exactly when it holds no
      apostrophe; in particular stripping twice is stripping once. */
  lemma {:induction false} StripFixedPoint(s: string)
    ensures StripApostrophes(s) == s <==> Apostrophe !in s
    ensures StripApostrophes(StripApostrophes(s)) == StripApostrophes(s)
  {
    KeepsClean(s);
    KeepsClean(StripApostrophes(s));
  }

  lemma {:induction false} KeepsClean(s: string)
    ensures Apostrophe !in s ==> StripApostrophes(s) == s
  {
    if s != [] && Apostrophe !in s {
      assert s[0] != Apostrophe;
      assert Apostrophe !in s[1..];
      KeepsClean(s[1..]);
      assert StripApostrophes(s) == [s[0]] + s[1..];
    }
  }

  /** Stripping yields the empty string exactly when `s` is made of apostrophes
      only (the empty string included). */
  lemma {:induction false} StripEmpty(s: string)
    ensures StripApostrophes(s) == [] <==> forall i :: 0 <= i < |s| ==> s[i] == Apostrophe
  {
    if s != [] {
      StripEmpty(s[1..]);
      if forall i :: 0 <= i < |s[1..]| ==> s[1..][i] == Apostrophe {
        if s[0] == Apostrophe {
          forall i | 0 <= i < |s| ensures s[i] == Apostrophe {
            if i > 0 { assert s[i] == s[1..][i - 1]; }
          }
        }
      } else {
        var i :| 0 <= i < |s[1..]| && s[1..][i] != Apostrophe;
        assert s[i + 1] != Apostrophe;
      }
    }
  }
}
