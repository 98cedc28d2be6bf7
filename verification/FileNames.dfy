/** C strings and the rule for file names. */
module FileNames {
  const FORBIDDEN := "&;|*?'\"`[]()$<>{}^#\\/%!"

  /** Not empty, and nothing in it that `strchr` finds in the list, whose terminator counts. */
  predicate IsValidName(name: string) {
    name != [] && forall i :: 0 <= i < |name| ==> name[i] !in FORBIDDEN && name[i] != '\0'
  }

  /** The line that `fs_create_file` prints itself when it refuses a name. */
  datatype Complaint =
    | NoComplaint
    | BadName    // "Invalid filename: contains forbidden characters"
    | TakenName  // "Change name"

  function ComplaintAbout(name: string, taken: bool): Complaint {
    if !IsValidName(name) then BadName else if taken then TakenName else NoComplaint
  }

  /** Letters and digits are never forbidden, so the boot names need no character-by-character check. */
  predicate Alphanumeric(name: string) {
    name != [] && forall i :: 0 <= i < |name| ==> 'a' <= name[i] <= 'z' || '0' <= name[i] <= '9'
  }

  lemma AlphanumericIsValid(name: string)
    requires Alphanumeric(name)
    ensures IsValidName(name)
  {
    forall i | 0 <= i < |name|
      ensures name[i] !in FORBIDDEN
    {
      assert forall k :: 0 <= k < |FORBIDDEN| ==>
                           !('a' <= FORBIDDEN[k] <= 'z') && !('0' <= FORBIDDEN[k] <= '9');
    }
  }

  lemma SlashIsForbidden(name: string)
    requires IsValidName(name)
    ensures '/' !in name
  {
    assert FORBIDDEN[20] == '/';
    assert '/' in FORBIDDEN;
  }

  /** The bytes of a buffer up to its first NUL, which is all that `strcpy` and `strlen` see. */
  function CString(s: seq<char>): (r: string)
    ensures '\0' !in r && |r| <= |s| && r == s[..|r|]
    ensures |r| < |s| ==> s[|r|] == '\0'
  {
    if s == [] || s[0] == '\0' then [] else [s[0]] + CString(s[1..])
  }

  /**
   The buffer that `execute_append_output` builds from the bytes it read: `strcpy` stops at a NUL,
   a newline is added after a last byte that is not one, and the text follows.
   */
  function AppendText(read: seq<char>, text: seq<char>): seq<char> {
    CString(read) + (if read != [] && read[|read| - 1] != '\n' then "\n" else "") + text
  }
}
