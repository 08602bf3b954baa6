/** Parsing of MongoDB ObjectIds from their text form, as `ObjectId(s)` does
    for a Python `str`: exactly 24 hexadecimal digits in either case. An id is
    kept in its canonical text, the lower-case form `str(ObjectId(...))`
    prints, so two spellings of the same id name the same document. */
module ObjectIds {
  import opened Optional

  predicate IsHexDigit(c: char)
  {
    '0' <= c <= '9' || 'a' <= c <= 'f' || 'A' <= c <= 'F'
  }

  predicate IsLowerHexDigit(c: char)
  {
    '0' <= c <= '9' || 'a' <= c <= 'f'
  }

  /** The text of an ObjectId as `str()` prints it: 24 lower-case hex digits. */
  predicate IsCanonical(s: string)
  {
    |s| == 24 && forall i :: 0 <= i < |s| ==> IsLowerHexDigit(s[i])
  }

  function LowerHexDigit(c: char): (r: char)
    requires IsHexDigit(c)
    ensures IsLowerHexDigit(r)
    ensures IsLowerHexDigit(c) ==> r == c
  {
    if 'A' <= c <= 'F' then (c as int - 'A' as int + 'a' as int) as char else c
  }

  /** `ObjectId(s)`: None stands for the exception the handlers turn into
      400 "Invalid book ID format.". */
  function Parse(s: string): (r: Option<string>)
    ensures r.Some? <==> |s| == 24 && forall i :: 0 <= i < |s| ==> IsHexDigit(s[i])
    ensures r.Some? ==> IsCanonical(r.value)
    ensures r.Some? ==> forall i :: 0 <= i < 24 ==> r.value[i] == LowerHexDigit(s[i])
  {
    if |s| == 24 && forall i :: 0 <= i < |s| ==> IsHexDigit(s[i]) then
      Some(seq(24, i requires 0 <= i < 24 => LowerHexDigit(s[i])))
    else
      None
  }

  /** Round trip: the text `str(oid)` of an ObjectId parses back to that id. */
  lemma ParsePrinted(s: string)
    requires IsCanonical(s)
    ensures Parse(s) == Some(s)
  {
    assert forall i :: 0 <= i < |s| ==> IsHexDigit(s[i]);
    var r := Parse(s);
    assert forall i :: 0 <= i < 24 ==> r.value[i] == s[i];
    assert r.value == s;
  }

  /** Parsing is idempotent: any accepted spelling names the id whose
      canonical text parses to itself. */
  lemma ParseIdempotent(s: string)
    requires Parse(s).Some?
    ensures Parse(Parse(s).value) == Parse(s)
  {
    ParsePrinted(Parse(s).value);
  }
}
