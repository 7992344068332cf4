/** The pieces of PHP's runtime that the two core files rely on: null, byte
    strings, mb_substr in '8bit' mode, hash_equals, str_replace, empty() and
    gettype(). Each is modelled from its documented behaviour. */
module Php {

  /** PHP's null as a value: None is null. */
  datatype Option<+T> = None | Some(value: T)

  /** A PHP call that either returns a value or throws an exception. */
  datatype Result<+T, +E> = Success(value: T) | Failure(error: E)

  /** PHP strings are byte strings. */
  type byte = b: int | 0 <= b < 256
  type Bytes = seq<byte>

  function Min(a: int, b: int): int
  {
    if a <= b then a else b
  }

  /** mb_substr($s, $start, $length, '8bit') for a non-negative start: a start
      beyond the end gives the empty string, a null length (None) runs to the
      end, and a length past the end is cut at the end. */
  function Substr<T>(s: seq<T>, start: nat, length: Option<nat>): (r: seq<T>)
    ensures |r| == if start >= |s| then 0
                   else if length.None? then |s| - start
                   else Min(length.value, |s| - start)
    ensures forall i :: 0 <= i < |r| ==> r[i] == s[start + i]
  {
    var from := Min(start, |s|);
    var to := if length.None? then |s| else Min(from + length.value, |s|);
    s[from..to]
  }

  /** hash_equals($known, $user): false when the lengths differ, otherwise a
      byte-by-byte comparison. Its constant running time is not modelled. */
  function HashEquals(known: Bytes, user: Bytes): (equal: bool)
    ensures equal <==> known == user
  {
    |known| == |user| && forall i :: 0 <= i < |known| ==> known[i] == user[i]
  }

  /** `pattern` occurs in `s` starting at position `i`. */
  predicate OccursAt(s: string, pattern: string, i: nat)
  {
    i + |pattern| <= |s| && forall j :: 0 <= j < |pattern| ==> s[i + j] == pattern[j]
  }

  /** str_replace($search, $replace, $subject) for one search string: scans
      the subject once from left to right, replacing each non-overlapping,
      case-sensitive occurrence; an empty search leaves the subject alone. */
  function StrReplace(search: string, replace: string, subject: string): string
    decreases |subject|
  {
    if search == [] || |subject| < |search| then subject
    else if OccursAt(subject, search, 0) then
      replace + StrReplace(search, replace, subject[|search|..])
    else
      [subject[0]] + StrReplace(search, replace, subject[1..])
  }

  /** An occurrence at the front is replaced and the scan goes on after it. */
  lemma StrReplaceAtStart(search: string, replace: string, subject: string)
    requires search != [] && OccursAt(subject, search, 0)
    ensures StrReplace(search, replace, subject) == replace + StrReplace(search, replace, subject[|search|..])
  {
  }

  /** Where no occurrence starts at the front, the first character is copied. */
  lemma StrReplaceSkipsFirst(search: string, replace: string, subject: string)
    requires search != [] && |search| <= |subject| && !OccursAt(subject, search, 0)
    ensures StrReplace(search, replace, subject) == [subject[0]] + StrReplace(search, replace, subject[1..])
  {
  }

  /** Dropping the first character moves every occurrence one place left. */
  lemma OccursAtInTail(search: string, subject: string, i: nat)
    requires 1 <= |subject|
    ensures OccursAt(subject[1..], search, i) <==> OccursAt(subject, search, i + 1)
  {
  }

  /** A replacement as long as the search string keeps the subject's length. */
  lemma {:induction false} StrReplaceKeepsLength(search: string, replace: string, subject: string)
    requires |replace| == |search|
    ensures |StrReplace(search, replace, subject)| == |subject|
    decreases |subject|
  {
    if search != [] && |subject| >= |search| {
      if OccursAt(subject, search, 0) {
        StrReplaceKeepsLength(search, replace, subject[|search|..]);
      } else {
        StrReplaceKeepsLength(search, replace, subject[1..]);
      }
    }
  }

  /** A subject without any occurrence of the search string comes back unchanged. */
  lemma {:induction false} StrReplaceWithoutOccurrence(search: string, replace: string, subject: string)
    requires forall i :: 0 <= i <= |subject| ==> !OccursAt(subject, search, i)
    ensures StrReplace(search, replace, subject) == subject
    decreases |subject|
  {
    if search != [] && |subject| >= |search| {
      assert !OccursAt(subject, search, 0);
      forall i | 0 <= i <= |subject[1..]|
        ensures !OccursAt(subject[1..], search, i)
      {
        OccursAtInTail(search, subject, i);
        assert !OccursAt(subject, search, i + 1);
      }
      StrReplaceWithoutOccurrence(search, replace, subject[1..]);
      StrReplaceSkipsFirst(search, replace, subject);
      assert [subject[0]] + subject[1..] == subject;
    }
  }

  /** The leftmost occurrence is replaced, the text before it is kept as it
      is, and scanning resumes right after that occurrence in the subject. */
  lemma {:induction false} StrReplaceAtFirstOccurrence(search: string, replace: string, subject: string, k: nat)
    requires search != []
    requires OccursAt(subject, search, k)
    requires forall i :: 0 <= i < k ==> !OccursAt(subject, search, i)
    ensures StrReplace(search, replace, subject)
         == subject[..k] + replace + StrReplace(search, replace, subject[k + |search|..])
    decreases k
  {
    if k == 0 {
      StrReplaceAtStart(search, replace, subject);
      assert subject[..0] + replace == replace;
    } else {
      var tail := subject[1..];
      assert OccursAt(tail, search, k - 1) && forall i :: 0 <= i < k - 1 ==> !OccursAt(tail, search, i) by {
        OccursAtInTail(search, subject, k - 1);
        forall i | 0 <= i < k - 1
          ensures !OccursAt(tail, search, i)
        {
          OccursAtInTail(search, subject, i);
        }
      }
      StrReplaceAtFirstOccurrence(search, replace, tail, k - 1);
      PrependFirst(search, replace, subject, k);
    }
  }

  /** The induction step of StrReplaceAtFirstOccurrence: when the first
      character starts no occurrence, the split found in `subject[1..]`
      carries over to `subject`. */
  lemma PrependFirst(search: string, replace: string, subject: string, k: nat)
    requires search != [] && 1 <= k && k + |search| <= |subject|
    requires !OccursAt(subject, search, 0)
    requires StrReplace(search, replace, subject[1..])
          == subject[1..][..k - 1] + replace + StrReplace(search, replace, subject[1..][k - 1 + |search|..])
    ensures StrReplace(search, replace, subject)
         == subject[..k] + replace + StrReplace(search, replace, subject[k + |search|..])
  {
    var tail := subject[1..];
    var rest := StrReplace(search, replace, subject[k + |search|..]);
    DropFirstSlices(subject, k, |search|);
    assert StrReplace(search, replace, tail) == tail[..k - 1] + replace + rest;
    StrReplaceSkipsFirst(search, replace, subject);
    PrependToSplit(subject[0], tail[..k - 1], replace, rest, subject[..k]);
  }

  /** How slices of `subject[1..]` relate to slices of `subject`. */
  lemma DropFirstSlices(subject: string, k: nat, n: nat)
    requires 1 <= k && k + n <= |subject|
    ensures subject[1..][k - 1 + n..] == subject[k + n..]
    ensures [subject[0]] + subject[1..][..k - 1] == subject[..k]
  {
  }

  /** Prepending a character to the part before a replacement. */
  lemma PrependToSplit(c: char, before: string, replace: string, rest: string, prefix: string)
    requires [c] + before == prefix
    ensures [c] + (before + replace + rest) == prefix + replace + rest
  {
  }

  /** Replacement is single-pass: the inserted text is never scanned again,
      even when it contains the search string itself. */
  lemma StrReplaceIsSinglePass(search: string, replace: string, rest: string)
    requires search != []
    ensures StrReplace(search, replace, search + rest) == replace + StrReplace(search, replace, rest)
  {
    var subject := search + rest;
    assert OccursAt(subject, search, 0);
    assert subject[|search|..] == rest;
    StrReplaceAtStart(search, replace, subject);
  }

  /** $_SERVER[$key], or null when the key is not set. */
  function Lookup(m: map<string, string>, key: string): (v: Option<string>)
    ensures v.Some? <==> key in m
    ensures v.Some? ==> v.value == m[key]
  {
    if key in m then Some(m[key]) else None
  }

  /** empty() on a string entry: unset, "" and "0" are empty; every other
      string, "00" and " 0" included, is not. */
  function Empty(v: Option<string>): (empty: bool)
    ensures v.Some? && |v.value| >= 2 ==> !empty
    ensures v.Some? && |v.value| == 1 ==> (empty <==> v.value[0] == '0')
  {
    v.None? || v.value == "" || v.value == "0"
  }

  /** The PHP values a caller may pass for a parameter. */
  datatype Value =
    | Null
    | Bool(b: bool)
    | Int(i: int)
    | Double(d: real)
    | Str(s: string)
    | Array(items: seq<Value>)

  /** gettype($v): "array" exactly for arrays. */
  function TypeName(v: Value): (name: string)
    ensures name == "array" <==> v.Array?
  {
    match v
    case Null => "NULL"
    case Bool(_) => "boolean"
    case Int(_) => "integer"
    case Double(_) => "double"
    case Str(_) => "string"
    case Array(_) => "array"
  }
}
