/**
  The masked password editor, on a terminal line of unbounded width: a cursor
  over character cells, blank beyond what was written. A backspace moves the
  cursor left, any other character overwrites the cell under the cursor.
 */
module MaskedEditor {
  import opened Base

  const BACKSPACE: Byte := 127
  const RETURN: Byte := 10

  const LEFT: char := 8 as char
  const RUBOUT: string := [LEFT, ' ', LEFT]

  datatype Terminal = Terminal(cells: seq<char>, cursor: nat)

  function Blanks(n: nat): string { seq(n, _ => ' ') }

  function Type(t: Terminal, c: char): Terminal {
    if c == LEFT then t.(cursor := if t.cursor > 0 then t.cursor - 1 else 0)
    else if t.cursor < |t.cells| then Terminal(t.cells[t.cursor := c], t.cursor + 1)
    else Terminal(t.cells + Blanks(t.cursor - |t.cells|) + [c], t.cursor + 1)
  }

  function TypeAll(t: Terminal, s: string): Terminal
    decreases |s|
  {
    if s == [] then t else TypeAll(Type(t, s[0]), s[1..])
  }

  /** The line shows n stars, then only blanks, with the cursor behind the stars. */
  ghost predicate Shows(t: Terminal, n: nat) {
    && n <= |t.cells| && t.cursor == n
    && (forall i :: 0 <= i < n ==> t.cells[i] == '*')
    && (forall i :: n <= i < |t.cells| ==> t.cells[i] == ' ')
  }

  /** One key: push, or pop if there is anything to pop. */
  function Edited(password: seq<Byte>, key: Byte): seq<Byte> {
    if key != BACKSPACE then password + [key]
    else if password == [] then []
    else password[..|password| - 1]
  }

  /** The password as a stack. */
  function Fold(keys: seq<Byte>): seq<Byte> {
    if keys == [] then [] else Edited(Fold(keys[..|keys| - 1]), keys[|keys| - 1])
  }

  lemma StarShows(t: Terminal, n: nat)
    requires Shows(t, n)
    ensures Shows(Type(t, '*'), n + 1)
  {
  }

  lemma RuboutShows(t: Terminal, n: nat)
    requires Shows(t, n) && n > 0
    ensures Shows(TypeAll(t, RUBOUT), n - 1)
  {
    var t1 := Type(t, LEFT);
    var t2 := Type(t1, ' ');
    var t3 := Type(t2, LEFT);
    assert RUBOUT[1..] == [' ', LEFT] && RUBOUT[1..][1..] == [LEFT] && RUBOUT[1..][1..][1..] == [];
    assert TypeAll(t1, RUBOUT[1..]) == TypeAll(t2, RUBOUT[1..][1..]) == t3;
    assert |t3.cells| == |t.cells|;
  }

  /** Every frame shows as many stars as the password then had characters. */
  ghost predicate Filmed(frames: seq<Terminal>, keys: seq<Byte>) {
    |frames| <= |keys| + 1 && forall k :: 0 <= k < |frames| ==> Shows(frames[k], |Fold(keys[..k])|)
  }

  lemma FilmedSnoc(frames: seq<Terminal>, keys: seq<Byte>, t: Terminal)
    requires Filmed(frames, keys) && |frames| <= |keys| && Shows(t, |Fold(keys[..|frames|])|)
    ensures Filmed(frames + [t], keys)
  {
  }

  class Editor {
    const keys: seq<Byte>            // what the user will type
    var pos: nat                     // how much of it has been read
    var terminal: Terminal
    ghost var frames: seq<Terminal>  // the line as it was whenever a key was awaited

    constructor (keys: seq<Byte>)
      ensures this.keys == keys && pos == 0 && frames == [] && Shows(terminal, 0)
    {
      this.keys := keys;
      pos, terminal, frames := 0, Terminal([], 0), [];
    }

    /** Waits for a key; None when the user types no more. */
    method GetCh() returns (key: Option<Byte>)
      requires pos <= |keys|
      modifies this`pos, this`frames
      ensures key == if old(pos) < |keys| then Some(keys[old(pos)]) else None
      ensures pos == if old(pos) < |keys| then old(pos) + 1 else old(pos)
      ensures frames == old(frames) + [terminal]
    {
      frames := frames + [terminal];
      if pos < |keys| {
        key := Some(keys[pos]);
        pos := pos + 1;
      } else {
        key := None;
      }
    }

    method Write(s: string)
      modifies this`terminal
      ensures terminal == TypeAll(old(terminal), s)
    {
      var i := 0;
      while i < |s|
        invariant 0 <= i <= |s|
        invariant TypeAll(terminal, s[i..]) == TypeAll(old(terminal), s)
      {
        terminal := Type(terminal, s[i]);
        assert s[i..][1..] == s[i + 1..];
        i := i + 1;
      }
    }

    /** The loop's body: append and echo a star, or rub out if there is anything to rub out. */
    method HandleKey(ch: Byte, password: seq<Byte>) returns (edited: seq<Byte>)
      requires Shows(terminal, |password|)
      modifies this`terminal
      ensures edited == Edited(password, ch) && Shows(terminal, |edited|)
    {
      edited := password;
      if ch == BACKSPACE {
        if |password| != 0 {
          RuboutShows(terminal, |password|);
          Write(RUBOUT);
          edited := password[..|password| - 1];
        }
      } else {
        edited := password + [ch];
        StarShows(terminal, |password|);
        assert "*"[1..] == [] && TypeAll(Type(terminal, '*'), "*"[1..]) == Type(terminal, '*');
        Write("*");
      }
    }

    /** Reads keys up to RETURN. The password is the fold of the keys before it, and whenever a key was
        awaited the line showed exactly one star for each character of the password so far. */
    method GetPwd() returns (password: Option<seq<Byte>>)
      requires pos == 0 && frames == [] && Shows(terminal, 0)
      modifies this
      ensures password.None? <==> RETURN !in keys
      ensures password.Some? ==> 1 <= pos <= |keys| && keys[pos - 1] == RETURN && RETURN !in keys[..pos - 1]
      ensures password.Some? ==> password.value == Fold(keys[..pos - 1]) && |frames| == pos && Shows(terminal, 0)
      ensures Filmed(frames, keys)
    {
      var typed: seq<Byte> := [];
      ghost var n := 0;  // keys handled so far
      var ch := GetCh();
      while ch.Some? && ch.value != RETURN
        invariant n <= |keys| && |frames| == n + 1
        invariant if ch.Some? then pos == n + 1 <= |keys| && ch.value == keys[n] else pos == n == |keys|
        invariant RETURN !in keys[..n] && typed == Fold(keys[..n]) && Shows(terminal, |typed|)
        invariant Filmed(frames, keys)
        decreases |keys| - n
      {
        assert keys[..n + 1][..n] == keys[..n] && keys[..n + 1] == keys[..n] + [keys[n]];
        typed := HandleKey(ch.value, typed);
        n := n + 1;
        ghost var before := frames;
        ch := GetCh();
        FilmedSnoc(before, keys, terminal);
      }
      if ch.Some? {
        password := Some(typed);
        terminal := Terminal([], 0);
      } else {
        assert keys[..n] == keys;
        password := None;
      }
    }
  }

  // ---- the fold ---------------------------------------------------------------------

  lemma {:induction false} FoldConcat(a: seq<Byte>, b: seq<Byte>)
    requires BACKSPACE !in b
    ensures Fold(a + b) == Fold(a) + b
    decreases |b|
  {
    if b == [] {
      assert a + b == a;
    } else {
      assert (a + b)[..|a + b| - 1] == a + b[..|b| - 1];
      FoldConcat(a, b[..|b| - 1]);
    }
  }

  lemma {:induction false} RuboutPops(a: seq<Byte>, backs: seq<Byte>)
    requires forall k :: k in backs ==> k == BACKSPACE
    ensures Fold(a + backs) == Fold(a)[..if |backs| <= |Fold(a)| then |Fold(a)| - |backs| else 0]
    decreases |backs|
  {
    if backs == [] {
      assert a + backs == a;
    } else {
      var fewer := backs[..|backs| - 1];
      assert (a + backs)[..|a + backs| - 1] == a + fewer;
      assert forall k :: k in fewer ==> k in backs;
      assert backs[|backs| - 1] in backs;
      RuboutPops(a, fewer);
    }
  }

  /** Typing anything and rubbing all of it out leaves the password as it was. */
  lemma {:induction false} RuboutUndoes(a: seq<Byte>, b: seq<Byte>, backs: seq<Byte>)
    requires BACKSPACE !in b && |backs| == |b| && forall k :: k in backs ==> k == BACKSPACE
    ensures Fold(a + b + backs) == Fold(a)
    decreases |b|
  {
    FoldConcat(a, b);
    RuboutPops(a + b, backs);
  }
}
