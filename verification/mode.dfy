/** Colour-mode selection in the `PicMerge` constructor: the mode is
    accepted case-insensitively and stored upper-case. */
module ColorMode {
  import opened Errors

  /** The two colour modes the program works in: grayscale and colour. */
  datatype Mode = L | RGB

  /** The mode's name as the image library spells it. */
  function Name(m: Mode): string {
    match m
    case L => "L"
    case RGB => "RGB"
  }

  /** `str.upper` on ASCII letters; other characters are kept. */
  function UpperChar(ch: char): char {
    if 'a' <= ch <= 'z' then (ch as int - 'a' as int + 'A' as int) as char else ch
  }

  function Upper(s: string): (u: string)
    ensures |u| == |s|
    ensures forall k :: 0 <= k < |s| ==> u[k] == UpperChar(s[k])
  {
    if |s| == 0 then "" else [UpperChar(s[0])] + Upper(s[1..])
  }

  /** The mode check as evidently intended: accept a mode whose upper-case
      form is "RGB" or "L" and store that form, otherwise raise a
      `ValueError` naming the mode received. */
  function CheckMode(mode: string): (r: Result<Mode>)
    ensures r.Ok? <==> Upper(mode) == "RGB" || Upper(mode) == "L"
    ensures r.Ok? ==> Name(r.value) == Upper(mode)
    ensures r.Err? ==> r.error == InvalidMode(mode)
  {
    if Upper(mode) == "RGB" then Ok(RGB)
    else if Upper(mode) == "L" then Ok(L)
    else Err(InvalidMode(mode))
  }

  /** The check as written: the rejection message formats `self.mode`,
      which has not been assigned yet, so the constructor fails with an
      `AttributeError` on the missing attribute instead. */
  function CheckModeAsWritten(mode: string): (r: Result<Mode>)
    ensures r.Ok? <==> CheckMode(mode).Ok?
    ensures r.Ok? ==> r == CheckMode(mode)
    ensures r.Err? ==> r.error == AttributeError("mode")
  {
    if Upper(mode) == "RGB" then Ok(RGB)
    else if Upper(mode) == "L" then Ok(L)
    else Err(AttributeError("mode"))
  }

  /** The accepted spellings are exactly the eight case variants of "rgb"
      and the two of "l". */
  lemma AcceptedSpellings(mode: string)
    ensures CheckMode(mode).Ok? <==>
              (|mode| == 3 && mode[0] in "rR" && mode[1] in "gG" && mode[2] in "bB")
              || (|mode| == 1 && mode[0] in "lL")
  {
    var u := Upper(mode);
    if |mode| == 3 {
      assert u == "RGB" <==> u[0] == 'R' && u[1] == 'G' && u[2] == 'B';
    } else if |mode| == 1 {
      assert u == "L" <==> u[0] == 'L';
    }
  }

  /** Normalising is idempotent: the stored name passes the check again and
      yields the same mode. */
  lemma CheckModeIdempotent(mode: string)
    requires CheckMode(mode).Ok?
    ensures CheckMode(Name(CheckMode(mode).value)) == CheckMode(mode)
  {
    var m := CheckMode(mode).value;
    assert Upper(Name(m)) == Name(m) by {
      var n := Name(m);
      assert forall k :: 0 <= k < |n| ==> UpperChar(n[k]) == n[k];
    }
  }

  /** A lower-case "rgba" is rejected; as written the caller sees the
      missing attribute, not the invalid mode. */
  lemma RejectedModeMisreported()
    ensures CheckMode("rgba") == Err(InvalidMode("rgba"))
    ensures CheckModeAsWritten("rgba") == Err(AttributeError("mode"))
  {
    assert |Upper("rgba")| == 4;
  }
}
