/** `parseField`: locates `"<key>":` in a payload and converts the text after the colon. */
module FieldDecoder {
  import opened Values
  import opened TextSearch

  /** Why a field could not be decoded: the conversion rejected the text that
      follows the key (in the source `std::stof` throws and nothing catches it). */
  datatype DecodeError = Unconvertible(key: string, text: string)

  /** The literal searched for: the key in double quotes, then a colon. */
  function Needle(key: string): (n: string)
    ensures |n| == |key| + 3
    ensures n[0] == '"' && n[|n| - 2] == '"' && n[|n| - 1] == ':'
    ensures n[1..|n| - 2] == key
  {
    "\"" + key + "\":"
  }

  /** The outcome of handing `text` to the conversion for field `key`. */
  function Convert(key: string, text: string, convert: Converter): (r: Result<Float32, DecodeError>)
    ensures r.Success? <==> convert(text).Some?
    ensures r.Success? ==> convert(text) == Some(r.value)
    ensures r.Failure? ==> r.error == Unconvertible(key, text)
  {
    match convert(text)
    case Some(v) => Success(v)
    case None => Failure(Unconvertible(key, text))
  }

  /** `parseField(json, key)`. An absent key yields 0.0 without any conversion;
      otherwise the text starting right after the colon of the FIRST occurrence
      of the needle is converted, and a failed conversion is an error, not 0.0. */
  function ParseField(json: string, key: string, convert: Converter): (r: Result<Float32, DecodeError>)
    ensures !Occurs(json, Needle(key)) ==> r == Success(PositiveZero)
    ensures forall i :: IsFirstOccurrence(json, Needle(key), i) ==>
              i + |key| + 3 <= |json| && r == Convert(key, json[i + |key| + 3..], convert)
    ensures r.Failure? ==> r.error.key == key && Occurs(json, Needle(key))
  {
    match Find(json, Needle(key))
    case None => Success(PositiveZero)
    case Some(pos) =>
      var start := pos + |key| + 3;
      Convert(key, json[start..], convert)
  }

  /** The index conversion starts from: one past the colon of the first
      needle, hence never past the end of the payload (`substr` cannot throw). */
  function ValueStart(json: string, key: string): (r: Option<nat>)
    ensures r.None? <==> !Occurs(json, Needle(key))
    ensures r.Some? ==> r.value <= |json|
    ensures r.Some? ==> IsFirstOccurrence(json, Needle(key), r.value - |key| - 3)
    ensures r.Some? ==> json[r.value - 1] == ':'
  {
    match Find(json, Needle(key))
    case None => None
    case Some(pos) =>
      NeedleShape(json, key, pos);
      Some(pos + |key| + 3)
  }

  /** Where the needle occurs, the payload holds the key and then a colon. */
  lemma NeedleShape(json: string, key: string, pos: int)
    requires OccursAt(json, Needle(key), pos)
    ensures json[pos + |key| + 2] == ':' && json[pos + 1..pos + |key| + 1] == key
  {
    var n := Needle(key);
    var w := json[pos..pos + |n|];
    assert w == n;
    assert json[pos + |key| + 2] == w[|n| - 1];
    forall k | 0 <= k < |key|
      ensures json[pos + 1 + k] == key[k]
    {
      assert w[1 + k] == json[pos + 1 + k];
      assert n[1..|n| - 2][k] == n[1 + k];
    }
    assert json[pos + 1..pos + |key| + 1] == key;
  }

  /** `ParseField` is exactly "convert the suffix at `ValueStart`, or 0.0 when there is none". */
  lemma ParseFieldUsesValueStart(json: string, key: string, convert: Converter)
    ensures ValueStart(json, key).None? ==> ParseField(json, key, convert) == Success(PositiveZero)
    ensures ValueStart(json, key).Some? ==>
              ParseField(json, key, convert) == Convert(key, json[ValueStart(json, key).value..], convert)
  {
  }

  /** An absent key never reaches the conversion: the result is the same
      whatever the conversion does. */
  lemma AbsentKeyIgnoresConversion(json: string, key: string, c1: Converter, c2: Converter)
    requires !Occurs(json, Needle(key))
    ensures ParseField(json, key, c1) == ParseField(json, key, c2) == Success(PositiveZero)
  {
  }

  /** The decoded value depends only on the text after the first needle. */
  lemma SuffixDeterminesValue(j1: string, i1: nat, j2: string, i2: nat, key: string, convert: Converter)
    requires IsFirstOccurrence(j1, Needle(key), i1) && IsFirstOccurrence(j2, Needle(key), i2)
    requires j1[i1 + |key| + 3..] == j2[i2 + |key| + 3..]
    ensures ParseField(j1, key, convert) == ParseField(j2, key, convert)
  {
  }

  /** Only the first occurrence counts: text appended after a payload that
      already contains the key, including a second `"<key>":`, leaves the first
      occurrence where it was, so conversion starts at the same index. */
  lemma LaterDuplicateIgnored(json: string, more: string, key: string, i: nat)
    requires IsFirstOccurrence(json, Needle(key), i)
    ensures IsFirstOccurrence(json + more, Needle(key), i)
  {
    FindStableUnderAppend(json, more, Needle(key));
    FirstOccurrenceUnique(json, Needle(key), i, Find(json, Needle(key)).value);
  }

  /** A key preceded only by quote-free text (such as the opening brace of a
      flat object) is decoded from the text right after its colon, whatever
      follows, including later duplicates of the key. */
  lemma {:induction false} KeyAfterQuoteFreePrefix(pre: string, key: string, rest: string, convert: Converter)
    requires '"' !in pre
    ensures ParseField(pre + Needle(key) + rest, key, convert) == Convert(key, rest, convert)
  {
    var n := Needle(key);
    forall j | 0 <= j < |pre|
      ensures !OccursAt(pre + n, n, j)
    {
      assert (pre + n)[j] == pre[j] != n[0];
    }
    KeyAfterNeedleFreePrefix(pre, key, rest, convert);
  }

  /** The general form: when no copy of the needle starts inside `pre`, the
      field's value is read from what follows the needle placed after `pre`. */
  lemma {:induction false} KeyAfterNeedleFreePrefix(pre: string, key: string, rest: string, convert: Converter)
    requires forall j :: 0 <= j < |pre| ==> !OccursAt(pre + Needle(key), Needle(key), j)
    ensures ParseField(pre + Needle(key) + rest, key, convert) == Convert(key, rest, convert)
  {
    var n := Needle(key);
    var p := pre + n + rest;
    assert p[|pre|..|pre| + |n|] == n;
    forall j | 0 <= j < |pre|
      ensures !OccursAt(p, n, j)
    {
      OccursAtPrefix(pre + n, rest, n, j);
    }
    assert IsFirstOccurrence(p, n, |pre|);
    assert p[|pre| + |key| + 3..] == rest;
  }
}
