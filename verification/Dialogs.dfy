/** The texts of the dialogs, none of which breaks a command line. */
module Dialogs {
  /** A dialog that is repeated, with an error text, until an entry is accepted or the user cancels. */
  datatype Dialog = Dialog(message: string, prompt: string, retry: string)

  const ASK_TEXT: string := "Do you allow the following system call?%0a%0a"
  const PASSWORD_TEXT: string := "Enter the user decision password to continue."
  const PASSWORD_RETRY: string := "Incorrect password"
  const KEY_TEXT: string := "Enter the configuration file signing key."
  const KEY_RETRY: string := "Incorrect key, or the configuration has been changed."

  const PASSWORD_DIALOG: Dialog := Dialog(PASSWORD_TEXT, "password: ", PASSWORD_RETRY)
  const KEY_DIALOG: Dialog := Dialog(KEY_TEXT, "key: ", KEY_RETRY)

  ghost predicate OneLine(d: Dialog) { '\n' !in d.message && '\n' !in d.prompt && '\n' !in d.retry }

  lemma PiecesAreOneLine(s: string, a: string, b: string, c: string)
    requires s == a + b + c && '\n' !in a && '\n' !in b && '\n' !in c
    ensures '\n' !in s
  {
  }

  lemma AskTextIsOneLine()
    ensures '\n' !in ASK_TEXT
  {
    PiecesAreOneLine(ASK_TEXT, "Do you allow the ", "following system ", "call?%0a%0a");
  }

  lemma PasswordTextIsOneLine()
    ensures '\n' !in PASSWORD_TEXT
  {
    PiecesAreOneLine(PASSWORD_TEXT, "Enter the user ", "decision password ", "to continue.");
  }

  lemma PasswordDialogIsOneLine()
    ensures OneLine(PASSWORD_DIALOG)
  {
    PasswordTextIsOneLine();
  }

  lemma KeyTextIsOneLine()
    ensures '\n' !in KEY_TEXT
  {
    PiecesAreOneLine(KEY_TEXT, "Enter the ", "configuration file ", "signing key.");
  }

  lemma KeyRetryPieces()
    ensures KEY_RETRY == "Incorrect key, or " + ("the configuration " + "has been changed.")
  {
  }

  lemma KeyRetryIsOneLine()
    ensures '\n' !in KEY_RETRY
  {
    KeyRetryPieces();
    hide *;
    PiecesAreOneLine(KEY_RETRY, "Incorrect key, or ", "the configuration ", "has been changed.");
  }

  lemma KeyDialogIsOneLine()
    ensures OneLine(KEY_DIALOG)
  {
    KeyTextIsOneLine();
    KeyRetryIsOneLine();
  }
}
