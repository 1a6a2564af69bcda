/** The menu screen's controller: keys either choose an action, kept until the game
    loop consumes it, or move the selected difficulty. */
module Menu {
  import opened Wrappers
  import opened Keys
  import opened Difficulties

  datatype MenuAction = NONE | START | INSTRUCTIONS | RESTART | QUIT

  /** The action a key asks for, if it asks for one. */
  function ActionOf(key: Key): (r: Option<MenuAction>)
    ensures r == Some(QUIT) <==> IsLetter(key, 'q')
    ensures r == Some(RESTART) <==> IsLetter(key, 'r') || key == Escape
    ensures r == Some(INSTRUCTIONS) <==> IsLetter(key, 'i')
    ensures r == Some(START) <==> key == Enter
    ensures r != Some(NONE)
  {
    match key
    case Character(c) =>
      var l := ToLower(c);
      if l == 'q' then Some(QUIT)
      else if l == 'r' then Some(RESTART)
      else if l == 'i' then Some(INSTRUCTIONS)
      else None
    case Enter => Some(START)
    case Escape => Some(RESTART)
    case _ => None
  }

  /** The capital I with dot above asks for the instructions, as its lower case is i. */
  lemma DottedCapitalIInstructions()
    ensures ActionOf(Character('\U{0130}')) == Some(INSTRUCTIONS)
  {
  }

  /** Keys that lower the difficulty and keys that raise it. */
  predicate SelectsPrevious(key: Key) { key == ArrowLeft || IsLetter(key, 'a') }
  predicate SelectsNext(key: Key) { key == ArrowRight || IsLetter(key, 'd') }

  lemma KeyRolesDisjoint(key: Key)
    ensures !(SelectsPrevious(key) && SelectsNext(key))
    ensures SelectsPrevious(key) || SelectsNext(key) ==> ActionOf(key).None?
  {
  }

  class MenuController {
    var lastAction: MenuAction
    var difficulty: Difficulty

    constructor ()
      ensures lastAction == NONE && difficulty == NORMAL
    {
      lastAction := NONE;
      difficulty := NORMAL;
    }

    /** Hands out the pending action and forgets it. */
    method ConsumeAction() returns (a: MenuAction)
      modifies this`lastAction
      ensures a == old(lastAction) && lastAction == NONE
    {
      a := lastAction;
      lastAction := NONE;
    }

    method ProcessKey(key: Option<Key>)
      modifies this
      ensures key.None? ==> lastAction == old(lastAction) && difficulty == old(difficulty)
      ensures key.Some? && SelectsPrevious(key.value) ==>
        difficulty == Previous(old(difficulty)) && lastAction == old(lastAction)
      ensures key.Some? && SelectsNext(key.value) ==>
        difficulty == Next(old(difficulty)) && lastAction == old(lastAction)
      ensures key.Some? && ActionOf(key.value).Some? ==>
        lastAction == ActionOf(key.value).value && difficulty == old(difficulty)
      ensures key.Some? && !SelectsPrevious(key.value) && !SelectsNext(key.value) && ActionOf(key.value).None? ==>
        lastAction == old(lastAction) && difficulty == old(difficulty)
    {
      if key.None? { return; }
      var k := key.value;
      if k == ArrowLeft {
        difficulty := Previous(difficulty);
        return;
      }
      if k == ArrowRight {
        difficulty := Next(difficulty);
        return;
      }
      if k.Character? {
        var l := ToLower(k.c);
        if l == 'q' {
          lastAction := QUIT;
        } else if l == 'r' {
          lastAction := RESTART;
        } else if l == 'i' {
          lastAction := INSTRUCTIONS;
        } else if l == 'a' {
          difficulty := Previous(difficulty);
        } else if l == 'd' {
          difficulty := Next(difficulty);
        }
      } else if k == Enter {
        lastAction := START;
      } else if k == Escape {
        lastAction := RESTART;
      }
    }
  }

  /** A second ConsumeAction right after a first one yields NONE. */
  method ConsumeTwice(m: MenuController) returns (first: MenuAction, second: MenuAction)
    modifies m
    ensures first == old(m.lastAction) && second == NONE
  {
    first := m.ConsumeAction();
    second := m.ConsumeAction();
  }
}
