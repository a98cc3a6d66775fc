/**
  Masking the password of a JSON request body before it is logged
  (hide_json_password). A C string is modelled by its characters up to the
  terminating NUL: the end of the sequence is where `*pos` reads 0.
*/
module JsonPassword {
  import opened Options

  /** The field name searched for, quotes included. */
  const FIELD: string := "\"password\""

  /** `w` occurs in `s` starting at index i. */
  predicate OccursAt(s: string, w: string, i: nat) {
    i + |w| <= |s| && s[i..i + |w|] == w
  }

  function FindFrom(s: string, w: string, k: nat): (r: Option<nat>)
    requires k <= |s|
    ensures r.Some? ==> k <= r.value && OccursAt(s, w, r.value)
    ensures forall j: nat :: k <= j && (r.None? || j < r.value) ==> !OccursAt(s, w, j)
    decreases |s| - k
  {
    if OccursAt(s, w, k) then Some(k)
    else if k == |s| then None
    else FindFrom(s, w, k + 1)
  }

  /** strstr: the first index at which `w` occurs in `s`, if any. */
  function Find(s: string, w: string): (r: Option<nat>)
    ensures r.Some? ==> OccursAt(s, w, r.value) && forall j: nat :: j < r.value ==> !OccursAt(s, w, j)
    ensures r.None? ==> forall j: nat :: !OccursAt(s, w, j)
  {
    FindFrom(s, w, 0)
  }

  /**
    `while (*pos && *pos != c) ++pos;` from index k: the first index at or
    after k holding c, or the end of the string.
  */
  function SkipTo(s: string, k: nat, c: char): (r: nat)
    requires k <= |s|
    ensures k <= r <= |s|
    ensures r == |s| || s[r] == c
    ensures forall j :: k <= j < r ==> s[j] != c
    decreases |s| - k
  {
    if k == |s| || s[k] == c then k else SkipTo(s, k + 1, c)
  }

  /** The conditions that define SkipTo determine it. */
  lemma SkipToUnique(s: string, k: nat, c: char, r: nat)
    requires k <= r <= |s| && (r == |s| || s[r] == c)
    requires forall j :: k <= j < r ==> s[j] != c
    ensures r == SkipTo(s, k, c)
  {
  }

  /**
    The characters to mask, as the half-open range [lo, hi): everything
    after the first `"` that follows the first `:` after the field name, up
    to the next `"` or the end. lo == hi when nothing is masked.
  */
  datatype Span = Span(lo: nat, hi: nat)

  function MaskedSpan(s: string): (r: Span)
    ensures r.lo <= r.hi <= |s|
  {
    match Find(s, FIELD)
    case None => Span(0, 0)
    case Some(i) =>
      var colon := SkipTo(s, i + |FIELD|, ':');
      var quote := SkipTo(s, colon, '"');
      if quote == |s| then Span(0, 0)
      else Span(quote + 1, SkipTo(s, quote + 1, '"'))
  }

  /** `s` with the characters of `sp` replaced by '*'. */
  function Overwrite(s: string, sp: Span): (r: string)
    requires sp.lo <= sp.hi <= |s|
    ensures |r| == |s|
    ensures forall k :: 0 <= k < |s| ==> r[k] == if sp.lo <= k < sp.hi then '*' else s[k]
  {
    seq(|s|, k requires 0 <= k < |s| => if sp.lo <= k < sp.hi then '*' else s[k])
  }

  /** The logged text: the span's characters replaced by '*'. */
  function Masked(s: string): (r: string)
    ensures |r| == |s|
    ensures forall k :: 0 <= k < |s| && r[k] != s[k] ==> MaskedSpan(s).lo <= k < MaskedSpan(s).hi && r[k] == '*'
  {
    Overwrite(s, MaskedSpan(s))
  }

  /** Without the field name, the text is logged as it is. */
  lemma NoFieldUnchanged(s: string)
    requires forall j: nat :: !OccursAt(s, FIELD, j)
    ensures Masked(s) == s
  {
    assert MaskedSpan(s) == Span(0, 0);
  }

  /**
    With the field name present but no ':' after it that a '"' follows, the
    value is never found and the text is logged as it is.
  */
  lemma NoValueUnchanged(s: string, i: nat)
    requires Find(s, FIELD) == Some(i)
    requires forall c, q :: i + |FIELD| <= c < q < |s| && s[c] == ':' ==> s[q] != '"'
    ensures Masked(s) == s
  {
    var colon := SkipTo(s, i + |FIELD|, ':');
    assert colon < |s| ==> s[colon] == ':';
    assert SkipTo(s, colon, '"') == |s|;
    assert MaskedSpan(s) == Span(0, 0);
  }

  /**
    What a non-empty span is: it follows the first occurrence of the field
    name, a ':' lies between the two, it opens right after a '"', holds no
    '"' and is closed by a '"' or the end of the text.
  */
  lemma SpanIsQuotedValue(s: string)
    requires MaskedSpan(s).lo < MaskedSpan(s).hi
    ensures var sp := MaskedSpan(s);
            && Find(s, FIELD).Some?
            && Find(s, FIELD).value + |FIELD| < sp.lo
            && (exists c :: Find(s, FIELD).value + |FIELD| <= c < sp.lo - 1 && s[c] == ':')
            && s[sp.lo - 1] == '"'
            && (forall k :: sp.lo <= k < sp.hi ==> s[k] != '"')
            && (sp.hi == |s| || s[sp.hi] == '"')
  {
    var i := Find(s, FIELD).value;
    var colon := SkipTo(s, i + |FIELD|, ':');
    var quote := SkipTo(s, colon, '"');
    assert s[colon] == ':';
  }

  /**
    Only the first occurrence counts: the text up to the end of the first
    field name is logged as it is, whatever follows.
  */
  lemma PrefixKept(s: string)
    requires Find(s, FIELD).Some?
    ensures var end := Find(s, FIELD).value + |FIELD|;
            Masked(s)[..end] == s[..end]
  {
  }

  /** The conditions that define Find determine it. */
  lemma FindUnique(s: string, w: string, i: nat)
    requires OccursAt(s, w, i) && forall j: nat :: j < i ==> !OccursAt(s, w, j)
    ensures Find(s, w) == Some(i)
  {
  }

  /** Two texts that agree below `end` have the same occurrences ending by `end`. */
  lemma OccursAtAgree(s: string, t: string, w: string, j: nat, end: nat)
    requires end <= |s| && end <= |t| && j + |w| <= end
    requires forall k :: 0 <= k < end ==> s[k] == t[k]
    ensures OccursAt(s, w, j) == OccursAt(t, w, j)
  {
    assert s[j..j + |w|] == t[j..j + |w|];
  }

  /** MaskedSpan from the positions its steps reach. */
  lemma SpanFromSteps(t: string, i: nat, colon: nat, quote: nat, hi: nat)
    requires Find(t, FIELD) == Some(i) && i + |FIELD| <= |t|
    requires colon == SkipTo(t, i + |FIELD|, ':') && quote == SkipTo(t, colon, '"')
    requires quote < |t| && hi == SkipTo(t, quote + 1, '"')
    ensures MaskedSpan(t) == Span(quote + 1, hi)
  {
  }

  /** Masking a non-empty span leaves the field name where it was found. */
  lemma FindKept(s: string)
    requires MaskedSpan(s).lo < MaskedSpan(s).hi
    ensures Find(Masked(s), FIELD) == Find(s, FIELD)
  {
    var m := Masked(s);
    var sp := MaskedSpan(s);
    var i := Find(s, FIELD).value;
    forall j: nat | j <= i
      ensures OccursAt(m, FIELD, j) == OccursAt(s, FIELD, j)
    {
      OccursAtAgree(s, m, FIELD, j, sp.lo);
    }
    FindUnique(m, FIELD, i);
  }

  /** Masking does not move a non-empty span: the masked text has the same span. */
  lemma SpanKept(s: string)
    requires MaskedSpan(s).lo < MaskedSpan(s).hi
    ensures MaskedSpan(Masked(s)) == MaskedSpan(s)
  {
    var m := Masked(s);
    var sp := MaskedSpan(s);
    var i := Find(s, FIELD).value;
    var colon := SkipTo(s, i + |FIELD|, ':');
    var quote := SkipTo(s, colon, '"');
    SpanFromSteps(s, i, colon, quote, sp.hi);
    FindKept(s);
    SkipToUnique(m, i + |FIELD|, ':', colon);
    SkipToUnique(m, colon, '"', quote);
    SkipToUnique(m, quote + 1, '"', sp.hi);
    SpanFromSteps(m, i, colon, quote, sp.hi);
  }

  /** Masking a masked text changes nothing. */
  lemma MaskIdempotent(s: string)
    ensures Masked(Masked(s)) == Masked(s)
  {
    var m := Masked(s);
    var sp := MaskedSpan(s);
    if sp.lo < sp.hi {
      SpanKept(s);
      assert Overwrite(m, sp) == m;
    } else {
      assert m == s;
    }
  }

  /** One of the skipping loops: `while (*pos && *pos != c) ++pos;`. */
  method Skip(buf: array<char>, k: nat, c: char) returns (pos: nat)
    requires k <= buf.Length
    ensures pos == SkipTo(buf[..], k, c)
  {
    pos := k;
    while pos < buf.Length && buf[pos] != c
      invariant k <= pos <= buf.Length
      invariant forall j :: k <= j < pos ==> buf[j] != c
    {
      pos := pos + 1;
    }
    SkipToUnique(buf[..], k, c, pos);
  }

  /** The masking loop: `while (*pos && *pos != '"') *(pos++) = '*';`. */
  method MaskValue(buf: array<char>, lo: nat) returns (hi: nat)
    requires lo <= buf.Length
    modifies buf
    ensures hi == SkipTo(old(buf[..]), lo, '"')
    ensures forall j :: 0 <= j < buf.Length ==> buf[j] == if lo <= j < hi then '*' else old(buf[j])
  {
    hi := lo;
    while hi < buf.Length && buf[hi] != '"'
      invariant lo <= hi <= buf.Length
      invariant forall j :: lo <= j < hi ==> old(buf[j]) != '"'
      invariant forall j :: 0 <= j < buf.Length ==> buf[j] == if lo <= j < hi then '*' else old(buf[j])
    {
      buf[hi] := '*';
      hi := hi + 1;
    }
    SkipToUnique(old(buf[..]), lo, '"', hi);
  }

  /**
    hide_json_password: duplicates the text, looks for the field name and
    walks to the ':' and then the opening '"' of the value, and overwrites
    the value's characters with '*' up to the closing '"'. The text given
    is not changed; the duplicate is returned.
  */
  method HideJsonPassword(json: string) returns (result: string)
    requires forall k :: 0 <= k < |json| ==> json[k] != '\0'
    ensures result == Masked(json)
  {
    var buf := new char[|json|](k requires 0 <= k < |json| => json[k]);
    assert buf[..] == json;
    var found := Find(json, FIELD);
    if found.Some? {
      var pos := Skip(buf, found.value + 10, ':');
      ghost var colon := pos;
      pos := Skip(buf, pos, '"');
      if pos < buf.Length {
        var hi := MaskValue(buf, pos + 1);
        SpanFromSteps(json, found.value, colon, pos, hi);
        assert buf[..] == Overwrite(json, Span(pos + 1, hi));
      } else {
        assert MaskedSpan(json) == Span(0, 0);
        assert Overwrite(json, Span(0, 0)) == json;
      }
    } else {
      assert Overwrite(json, Span(0, 0)) == json;
    }
    result := buf[..];
  }
}
