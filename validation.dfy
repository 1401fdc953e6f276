/** The Laravel validation rules the controllers use, on one request field. */
module Validation {
  import opened Optional

  /** A request field: missing from the request, sent as null, or sent as text. */
  datatype Param = Absent | Null | Given(text: string)

  /** The characters PHP `trim` strips: space, tab, line feed, carriage return, NUL, vertical tab. */
  predicate Trimmable(c: char) {
    c == ' ' || c == '\t' || c == '\n' || c == '\r' || c == '\0' || c == '\U{B}'
  }

  /** PHP `ltrim`: drops the leading trimmable characters. */
  function TrimStart(s: string): string {
    if s != [] && Trimmable(s[0]) then TrimStart(s[1..]) else s
  }

  /** PHP `rtrim`: drops the trailing trimmable characters. */
  function TrimEnd(s: string): string {
    if s != [] && Trimmable(s[|s| - 1]) then TrimEnd(s[..|s| - 1]) else s
  }

  /** PHP `trim`. */
  function Trim(s: string): string {
    TrimEnd(TrimStart(s))
  }

  lemma {:induction false} TrimStartEmpty(s: string)
    ensures TrimStart(s) == [] <==> forall i :: 0 <= i < |s| ==> Trimmable(s[i])
  {
    if s != [] && Trimmable(s[0]) {
      TrimStartEmpty(s[1..]);
      assert forall i :: 1 <= i < |s| ==> s[i] == s[1..][i - 1];
    }
  }

  lemma {:induction false} TrimEndEmpty(s: string)
    ensures TrimEnd(s) == [] <==> forall i :: 0 <= i < |s| ==> Trimmable(s[i])
  {
    if s != [] && Trimmable(s[|s| - 1]) {
      TrimEndEmpty(s[..|s| - 1]);
      assert forall i :: 0 <= i < |s| - 1 ==> s[i] == s[..|s| - 1][i];
    }
  }

  /** What `ltrim` leaves is empty or starts with a character `trim` keeps. */
  lemma {:induction false} TrimStartHead(s: string)
    ensures TrimStart(s) == [] || !Trimmable(TrimStart(s)[0])
  {
    if s != [] && Trimmable(s[0]) {
      TrimStartHead(s[1..]);
    }
  }

  /** Text that consists of trimmable characters only. */
  predicate Blank(s: string)
    ensures Blank(s) <==> Trim(s) == []
  {
    TrimStartEmpty(s);
    TrimStartHead(s);
    TrimEndEmpty(TrimStart(s));
    forall i :: 0 <= i < |s| ==> Trimmable(s[i])
  }

  /** `required`: present, not null, and not empty once trimmed. */
  predicate Required(p: Param)
    ensures Required(p) <==> p.Given? && Trim(p.text) != []
  {
    p.Given? && !Blank(p.text)
  }

  /** `max:n` on a string: at most n characters. */
  predicate AtMost(p: Param, n: nat) {
    p.Given? ==> |p.text| <= n
  }

  /** `nullable` followed by `?? null`: the text when one was sent, null otherwise. */
  function OrNull(p: Param): (r: Option<string>)
    ensures r.Some? <==> p.Given?
    ensures p.Given? ==> r.value == p.text
  {
    if p.Given? then Some(p.text) else None
  }
}
