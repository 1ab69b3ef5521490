/**
 * The two pure pieces of the workbook upload (app.py): the sheet-name
 * sanitiser and the test that decides whether a failed upload is retried
 * because the file is locked.
 */
module Storage {
  import opened Wrappers
  import opened Text

  /** Characters Excel refuses in a sheet name. */
  predicate Forbidden(c: char) {
    c == '[' || c == ']' || c == ':' || c == '*' || c == '?' || c == '/' || c == '\\'
  }

  /** Excel's longest sheet name. */
  const MaxSheetName: int := 31

  /** `name.replace(c, " ")` for one character c. */
  function Replace(name: string, c: char): (r: string)
    ensures |r| == |name|
    ensures forall k | 0 <= k < |name| :: r[k] == (if name[k] == c then ' ' else name[k])
  {
    if name == [] then []
    else [if name[0] == c then ' ' else name[0]] + Replace(name[1..], c)
  }

  /** `s[:n]` */
  function Take(s: string, n: nat): string {
    if |s| <= n then s else s[..n]
  }

  /** _sanitize_sheet_name: the seven replacements in the source's order, then the first 31 characters. */
  function SanitizeSheetName(name: string): (r: string)
    ensures |r| == (if |name| <= MaxSheetName then |name| else MaxSheetName)
    ensures forall k | 0 <= k < |r| :: r[k] == (if Forbidden(name[k]) then ' ' else name[k])
  {
    var r := Replace(Replace(Replace(Replace(Replace(Replace(Replace(name, '['), ']'), ':'), '*'), '?'), '/'), '\\');
    Take(r, MaxSheetName)
  }

  /** No forbidden character survives. */
  lemma SanitizeAllowed(name: string)
    ensures forall k | 0 <= k < |SanitizeSheetName(name)| :: !Forbidden(SanitizeSheetName(name)[k])
  {
  }

  /** A sanitised name is left as it is. */
  lemma SanitizeIdempotent(name: string)
    ensures SanitizeSheetName(SanitizeSheetName(name)) == SanitizeSheetName(name)
  {
    var r := SanitizeSheetName(name);
    assert forall k | 0 <= k < |r| :: !Forbidden(r[k]);
  }

  /**
   * The lock test of the upload loop: HTTP status 423, SharePoint's
   * lock error code, or "lock" anywhere in the lower-cased message.
   */
  predicate IsLocked(status: Option<int>, message: string) {
    status == Some(423) || Contains(message, "-2147018894") || Contains(Lower(message), "lock")
  }

  /** Any spelling of "lock" whose lower-case form is "lock" marks the message as a lock, whatever surrounds it. */
  lemma LockWordDetected(status: Option<int>, before: string, word: string, after: string)
    requires Lower(word) == "lock"
    ensures IsLocked(status, before + word + after)
  {
    LowerAppend(before + word, after);
    LowerAppend(before, word);
    ContainsInMiddle(Lower(before), "lock", Lower(after));
  }

  lemma LowerLock()
    ensures Lower("LOCK") == "lock" && Lower("Lock") == "lock"
  {
    assert Lower("K") == "k" by { assert "K"[1..] == ""; }
    assert Lower("CK") == "ck" by { assert "CK"[1..] == "K"; }
    assert Lower("OCK") == "ock" by { assert "OCK"[1..] == "CK"; }
    assert "LOCK"[1..] == "OCK";
    assert Lower("k") == "k" by { assert "k"[1..] == ""; }
    assert Lower("ck") == "ck" by { assert "ck"[1..] == "k"; }
    assert Lower("ock") == "ock" by { assert "ock"[1..] == "ck"; }
    assert "Lock"[1..] == "ock";
  }

  /** Messages such as "File is LOCKED" or "Lock held by user" are taken as locks. */
  lemma UpperCaseLockDetected(before: string, after: string)
    ensures IsLocked(None, before + "LOCK" + after)
    ensures IsLocked(None, before + "Lock" + after)
  {
    LowerLock();
    LockWordDetected(None, before, "LOCK", after);
    LockWordDetected(None, before, "Lock", after);
  }
}
