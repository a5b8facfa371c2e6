/**
 * The PHP string built-ins the controller uses: `strtoupper`, `strtolower`,
 * `trim` and `implode`. Case mapping touches the ASCII letters only, as PHP
 * does in the "C" locale.
 */
module PhpString {

  function UpperChar(c: char): char
  {
    if 'a' <= c <= 'z' then (c as int - 32) as char else c
  }

  function LowerChar(c: char): char
  {
    if 'A' <= c <= 'Z' then (c as int + 32) as char else c
  }

  /** `strtoupper`. */
  function Upper(s: string): string
  {
    seq(|s|, i requires 0 <= i < |s| => UpperChar(s[i]))
  }

  /** `strtolower`. */
  function Lower(s: string): string
  {
    seq(|s|, i requires 0 <= i < |s| => LowerChar(s[i]))
  }

  /** A word of upper-case ASCII letters, such as an HTTP method name. */
  predicate IsUpperWord(w: string)
  {
    forall i :: 0 <= i < |w| ==> 'A' <= w[i] <= 'Z'
  }

  /**
   * For a word w of upper-case letters, a string upper-cases to w exactly
   * when it lower-cases to w's lower-case form: comparing strtoupper(s)
   * against "GET" and strtolower(s) against "get" agree.
   */
  lemma UpperMatchIffLowerMatch(s: string, w: string)
    requires IsUpperWord(w)
    ensures Upper(s) == w <==> Lower(s) == Lower(w)
  {
    if Upper(s) == w {
      assert |s| == |w|;
      forall i | 0 <= i < |s| ensures Lower(s)[i] == Lower(w)[i] {
        assert UpperChar(s[i]) == w[i];
      }
    }
    if Lower(s) == Lower(w) {
      assert |s| == |w|;
      forall i | 0 <= i < |s| ensures Upper(s)[i] == w[i] {
        assert Lower(s)[i] == Lower(w)[i];
        assert LowerChar(s[i]) == LowerChar(w[i]);
      }
    }
  }

  /** The characters PHP's `trim` strips by default: " \t\n\r\0\x0B". */
  predicate IsTrimmable(c: char)
  {
    c == ' ' || c == '\t' || c == '\n' || c == '\r' || c == 0 as char || c == 11 as char
  }

  predicate IsBlank(s: string)
  {
    forall i :: 0 <= i < |s| ==> IsTrimmable(s[i])
  }

  function TrimLeft(s: string): string
  {
    if s != [] && IsTrimmable(s[0]) then TrimLeft(s[1..]) else s
  }

  function TrimRight(s: string): string
  {
    if s != [] && IsTrimmable(s[|s| - 1]) then TrimRight(s[..|s| - 1]) else s
  }

  /** `trim`. */
  function Trim(s: string): string
  {
    TrimRight(TrimLeft(s))
  }

  lemma {:induction false} TrimLeftEmptyIffBlank(s: string)
    ensures TrimLeft(s) == "" <==> IsBlank(s)
    ensures TrimLeft(s) != "" ==> !IsTrimmable(TrimLeft(s)[0])
  {
    if s != [] && IsTrimmable(s[0]) {
      TrimLeftEmptyIffBlank(s[1..]);
      if IsBlank(s[1..]) {
        forall i | 0 <= i < |s| ensures IsTrimmable(s[i]) {
          if i > 0 { assert s[i] == s[1..][i - 1]; }
        }
      }
      if IsBlank(s) {
        assert forall i :: 0 <= i < |s[1..]| ==> s[1..][i] == s[i + 1];
      }
    }
  }

  lemma {:induction false} TrimRightEmptyIffBlank(s: string)
    ensures TrimRight(s) == "" <==> IsBlank(s)
  {
    if s != [] && IsTrimmable(s[|s| - 1]) {
      var init := s[..|s| - 1];
      TrimRightEmptyIffBlank(init);
      if IsBlank(init) {
        forall i | 0 <= i < |s| ensures IsTrimmable(s[i]) {
          if i < |s| - 1 { assert s[i] == init[i]; }
        }
      }
    }
  }

  /** `trim($s) == ''` holds exactly when s is made only of trimmable characters. */
  lemma TrimEmptyIffBlank(s: string)
    ensures Trim(s) == "" <==> IsBlank(s)
  {
    TrimLeftEmptyIffBlank(s);
    TrimRightEmptyIffBlank(TrimLeft(s));
  }

  /** `implode($glue, $pieces)`. */
  function Implode(glue: string, pieces: seq<string>): string
  {
    if pieces == [] then ""
    else if |pieces| == 1 then pieces[0]
    else pieces[0] + glue + Implode(glue, pieces[1..])
  }
}
