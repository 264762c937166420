/**
 * The input-file check the generator runs before anything else
 * (`validate_files`): the file must exist, and its path, lower-cased,
 * must end in `.csv` or `.xlsx`. Whether the path names an existing file
 * is asked of the file system, so it is a parameter here.
 */
module Validation {
  import opened Text

  datatype FileError =
    | MissingFile(path: string)  // `MissingFileException`, whose message names the path
    | WrongFormat                // `WrongFileFormat`, with a fixed message

  datatype Outcome = Pass | Fail(error: FileError)

  /** The extension test: `path.lower().endswith(('.csv', '.xlsx'))`. */
  predicate HasSupportedExtension(path: string)
  {
    EndsWith(Lower(path), ".csv") || EndsWith(Lower(path), ".xlsx")
  }

  /**
   * `validate_files`. A missing file is reported before the extension is
   * looked at; an existing file passes exactly when its extension is
   * supported, and otherwise is reported as being in the wrong format.
   */
  function ValidateFile(path: string, isFile: bool): (r: Outcome)
    ensures !isFile ==> r == Fail(MissingFile(path))
    ensures isFile && HasSupportedExtension(path) ==> r == Pass
    ensures isFile && !HasSupportedExtension(path) ==> r == Fail(WrongFormat)
  {
    if !isFile then Fail(MissingFile(path))
    else if !HasSupportedExtension(path) then Fail(WrongFormat)
    else Pass
  }

  // ---------------------------------------------------------------------
  // The extension test, stated without lower-casing
  // ---------------------------------------------------------------------

  /** `c` is the lower-case character `l` or, when `l` is a letter, its capital. */
  predicate MatchesIgnoringCase(c: char, l: char)
  {
    c == l || ('a' <= l <= 'z' && c as int == l as int - 32)
  }

  /** The last characters of `s` spell `suffix` in any mix of upper and lower case. */
  predicate EndsWithIgnoringCase(s: string, suffix: string)
  {
    |suffix| <= |s| && forall i :: 0 <= i < |suffix| ==> MatchesIgnoringCase(s[|s| - |suffix| + i], suffix[i])
  }

  lemma {:induction false} LowerCharMatches(c: char, l: char)
    requires !IsAsciiUpper(l)
    ensures LowerChar(c) == l <==> MatchesIgnoringCase(c, l)
  {
  }

  /** Testing the lower-cased path against a lower-case suffix is testing the path itself, ignoring case. */
  lemma {:induction false} EndsWithLower(s: string, suffix: string)
    requires forall i :: 0 <= i < |suffix| ==> !IsAsciiUpper(suffix[i])
    ensures EndsWith(Lower(s), suffix) <==> EndsWithIgnoringCase(s, suffix)
  {
    if |suffix| <= |s| {
      var k := |s| - |suffix|;
      var low := Lower(s);
      forall i | 0 <= i < |suffix|
        ensures low[k..][i] == suffix[i] <==> MatchesIgnoringCase(s[k + i], suffix[i])
      {
        assert low[k..][i] == LowerChar(s[k + i]);
        LowerCharMatches(s[k + i], suffix[i]);
      }
      if EndsWith(low, suffix) {
        assert forall i :: 0 <= i < |suffix| ==> low[k..][i] == suffix[i];
      }
      if EndsWithIgnoringCase(s, suffix) {
        assert low[k..] == suffix;
      }
    }
  }

  /**
   * An existing file passes validation exactly when its name ends in `.csv`
   * or `.xlsx` in any letter case, e.g. `Data.CSV` or `book.XlSx`.
   */
  lemma {:induction false} ValidateFileAccepts(path: string, isFile: bool)
    ensures ValidateFile(path, isFile) == Pass
            <==> isFile && (EndsWithIgnoringCase(path, ".csv") || EndsWithIgnoringCase(path, ".xlsx"))
  {
    EndsWithLower(path, ".csv");
    EndsWithLower(path, ".xlsx");
  }

  /** A file that passes is read by exactly one of the two readers `read_data` chooses between. */
  lemma {:induction false} AcceptedFileHasOneReader(path: string)
    requires ValidateFile(path, true) == Pass
    ensures EndsWith(Lower(path), ".csv") != EndsWith(Lower(path), ".xlsx")
  {
    EndsWithLast(Lower(path), ".csv");
    EndsWithLast(Lower(path), ".xlsx");
  }

  lemma {:induction false} EndsWithLast(s: string, suffix: string)
    requires suffix != []
    ensures EndsWith(s, suffix) ==> s[|s| - 1] == suffix[|suffix| - 1]
  {
    if EndsWith(s, suffix) {
      assert s[|s| - |suffix|..][|suffix| - 1] == s[|s| - 1];
    }
  }

  /** A spreadsheet in the older `.xls` format and a backed-up `.csv` are both refused. */
  lemma {:induction false} RejectedNames()
    ensures ValidateFile("sheet.xls", true) == Fail(WrongFormat)
    ensures ValidateFile("data.csv.bak", true) == Fail(WrongFormat)
    ensures ValidateFile("data.csv", false) == Fail(MissingFile("data.csv"))
  {
    assert Lower("sheet.xls")[8] == 's';
    assert Lower("data.csv.bak")[11] == 'k';
  }
}
