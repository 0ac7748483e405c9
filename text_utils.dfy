/** String helpers of the front end: `truncate` and `classSet`. */
module TextUtils {
  import opened JsRuntime

  // ---------------------------------------------------------------------
  // truncate

  /** The marker `truncate` appends when it cuts a string. */
  const Ellipsis: string := "..."

  /** `input.substr(0, length)`: the length is clamped into [0, |s|]. */
  function Substr0(s: string, length: int): (r: string)
    ensures |r| == (if length < 0 then 0 else if length > |s| then |s| else length)
    ensures r == s[..|r|]
  {
    if length < 0 then "" else if length > |s| then s else s[..length]
  }

  /** `truncate(input, maxLength)`: a non-empty input longer than `maxLength`
      becomes its first `maxLength` characters (none when `maxLength` is
      negative) followed by "..."; anything else is returned unchanged. */
  function Truncate(input: string, maxLength: int): (r: string)
    ensures input == [] || |input| <= maxLength ==> r == input
    ensures input != [] && |input| > maxLength ==>
      var kept := if maxLength < 0 then 0 else maxLength;
      |r| == kept + 3 && r[..kept] == input[..kept] && r[kept..] == Ellipsis
  {
    if input != [] && |input| > maxLength then Substr0(input, maxLength) + Ellipsis else input
  }

  /** The result is never longer than `max(maxLength, 0) + 3`, nor longer
      than the input when the input already fits. */
  lemma TruncateLength(input: string, maxLength: int)
    ensures |Truncate(input, maxLength)| <= (if maxLength < 0 then 0 else maxLength) + 3
            || Truncate(input, maxLength) == input
    ensures |input| <= maxLength ==> |Truncate(input, maxLength)| == |input|
  {
  }

  /** Truncating twice with the same bound is truncating once. */
  lemma TruncateIdempotent(input: string, maxLength: int)
    ensures Truncate(Truncate(input, maxLength), maxLength) == Truncate(input, maxLength)
  {
    var once := Truncate(input, maxLength);
    if input != [] && |input| > maxLength {
      var kept := if maxLength < 0 then 0 else maxLength;
      assert once == input[..kept] + Ellipsis;
      assert once[..kept] == input[..kept];
    }
  }

  // ---------------------------------------------------------------------
  // classSet

  /** One own enumerable property of the object given to `classSet`, in
      `for...in` order: its key and whether its value is truthy. */
  datatype ClassEntry = ClassEntry(key: string, truthy: bool)

  /** The keys `classSet` keeps, in order: non-empty keys whose value is
      truthy. */
  function Kept(entries: seq<ClassEntry>): (ks: seq<string>)
    ensures |ks| <= |entries|
    ensures forall k :: k in ks ==> k != ""
  {
    if entries == [] then []
    else
      var last := entries[|entries| - 1];
      var ks := Kept(entries[..|entries| - 1]);
      if last.key != "" && last.truthy then ks + [last.key] else ks
  }

  /** A key is kept exactly when some entry has it as a non-empty key with
      a truthy value; no kept key is empty. */
  lemma {:induction false} KeptExactly(entries: seq<ClassEntry>)
    ensures |Kept(entries)| <= |entries|
    ensures forall k :: k in Kept(entries) <==> k != "" && ClassEntry(k, true) in entries
  {
    if entries != [] {
      var front := entries[..|entries| - 1];
      KeptExactly(front);
      assert entries == front + [entries[|entries| - 1]];
    }
  }

  /** The accumulator of the loop: " " before every kept key. */
  function Spaced(ks: seq<string>): string {
    if ks == [] then "" else Spaced(ks[..|ks| - 1]) + " " + ks[|ks| - 1]
  }

  /** The keys joined by single spaces. */
  function JoinWords(ks: seq<string>): string {
    if ks == [] then ""
    else if |ks| == 1 then ks[0]
    else JoinWords(ks[..|ks| - 1]) + " " + ks[|ks| - 1]
  }

  /** `classSet(input)` as a value: "" for a falsy input, otherwise the
      trimmed accumulator. */
  function ClassSetOf(input: Option<seq<ClassEntry>>): (r: string)
    ensures input.None? ==> r == ""
    ensures r == [] || (!IsWhitespace(r[0]) && !IsWhitespace(r[|r| - 1]))
  {
    match input
    case None => ""
    case Some(entries) => Trim(Spaced(Kept(entries)))
  }

  /** A class name that neither starts nor ends with whitespace. */
  predicate Clean(k: string) {
    k != [] && !IsWhitespace(k[0]) && !IsWhitespace(k[|k| - 1])
  }

  /** `classSet(input)`: walks the entries in order, appending " " + key for
      every kept key, and trims the result. With clean keys this is the kept
      keys joined by single spaces. */
  method ClassSet(input: Option<seq<ClassEntry>>) returns (classes: string)
    ensures classes == ClassSetOf(input)
    ensures input.None? ==> classes == ""
    ensures classes == [] || (!IsWhitespace(classes[0]) && !IsWhitespace(classes[|classes| - 1]))
    ensures input.Some? && (forall k :: k in Kept(input.value) ==> Clean(k)) ==>
      classes == JoinWords(Kept(input.value))
  {
    classes := "";
    if input.Some? {
      var entries := input.value;
      var i := 0;
      while i < |entries|
        invariant 0 <= i <= |entries|
        invariant classes == Spaced(Kept(entries[..i]))
      {
        var e := entries[i];
        assert Kept(entries[..i + 1]) ==
          if e.key != "" && e.truthy then Kept(entries[..i]) + [e.key] else Kept(entries[..i])
        by {
          assert entries[..i + 1][..i] == entries[..i];
        }
        if e.key != "" && e.truthy {
          classes := classes + " " + e.key;
        }
        i := i + 1;
      }
      assert entries[..i] == entries;
      classes := Trim(classes);
    }
    ClassSetOfCleanKeys(input);
  }

  /** With clean kept keys, `classSet` joins them by single spaces. */
  lemma ClassSetOfCleanKeys(input: Option<seq<ClassEntry>>)
    ensures input.Some? && (forall k :: k in Kept(input.value) ==> Clean(k)) ==>
      ClassSetOf(input) == JoinWords(Kept(input.value))
  {
    if input.Some? && (forall k :: k in Kept(input.value) ==> Clean(k)) {
      TrimSpacedCleanKeys(Kept(input.value));
    }
  }

  /** The first and last characters of a join of clean keys are those of the
      first and last keys. */
  lemma {:induction false} JoinWordsEnds(ks: seq<string>)
    requires ks != [] && forall k :: k in ks ==> Clean(k)
    ensures Clean(JoinWords(ks))
  {
    var last := ks[|ks| - 1];
    assert last in ks;
    if |ks| > 1 {
      var front := ks[..|ks| - 1];
      assert forall k :: k in front ==> k in ks;
      JoinWordsEnds(front);
      var j := JoinWords(front) + " " + last;
      assert j[0] == JoinWords(front)[0];
      assert j[|j| - 1] == last[|last| - 1];
    } else {
      assert JoinWords(ks) == ks[0];
    }
  }

  /** The accumulator is one space followed by the join. */
  lemma {:induction false} SpacedIsSpaceThenJoin(ks: seq<string>)
    requires ks != []
    ensures Spaced(ks) == " " + JoinWords(ks)
  {
    if |ks| > 1 {
      SpacedIsSpaceThenJoin(ks[..|ks| - 1]);
    } else {
      assert ks[..0] == [];
    }
  }

  /** Trimming the accumulator of clean keys gives their join: no leading,
      trailing or doubled space. */
  lemma TrimSpacedCleanKeys(ks: seq<string>)
    requires forall k :: k in ks ==> Clean(k)
    ensures Trim(Spaced(ks)) == JoinWords(ks)
  {
    if ks != [] {
      SpacedIsSpaceThenJoin(ks);
      JoinWordsEnds(ks);
      TrimAfterSpace(JoinWords(ks));
    }
  }

  /** Trimming one leading space off a clean string gives that string back. */
  lemma TrimAfterSpace(j: string)
    requires Clean(j)
    ensures Trim(" " + j) == j
  {
    assert (" " + j)[1..] == j;
  }

  /** `trim` also strips whitespace that belongs to a key: a lone kept key
      comes out trimmed, so " a " gives "a" and " " gives "". */
  lemma SingleKeyIsTrimmed(k: string)
    requires k != ""
    ensures ClassSetOf(Some([ClassEntry(k, true)])) == Trim(k)
  {
    var es := [ClassEntry(k, true)];
    assert Kept(es) == [k] by {
      assert es[..0] == [];
    }
    assert Spaced([k]) == " " + k by {
      assert [k][..0] == [];
    }
    assert (" " + k)[1..] == k;
  }
}
