/** The command registry: which bytes name a command, in upper or lower case, and how many arguments it takes. */
module Registry {
  import opened Common
  import opened Commands

  /** A registered name and the numbers of arguments, the name included; without `most` there is no upper limit. */
  datatype Registration = Registration(name: bytes, least: nat, most: Option<nat>)

  function Registered(c: Command): Registration {
    match c
    case CSet => Registration([83, 69, 84], 3, None)  // SET
    case CGet => Registration([71, 69, 84], 2, Some(2))  // GET
    case CGetSet => Registration([71, 69, 84, 83, 69, 84], 3, Some(3))  // GETSET
    case CMSet => Registration([77, 83, 69, 84], 3, None)  // MSET
    case CMGet => Registration([77, 71, 69, 84], 2, None)  // MGET
    case CAppend => Registration([65, 80, 80, 69, 78, 68], 3, Some(3))  // APPEND
    case CStrLen => Registration([83, 84, 82, 76, 69, 78], 2, Some(2))  // STRLEN
    case CSetEx => Registration([83, 69, 84, 69, 88], 4, Some(4))  // SETEX
    case CPSetEx => Registration([80, 83, 69, 84, 69, 88], 4, Some(4))  // PSETEX
    case CSetNx => Registration([83, 69, 84, 78, 88], 3, Some(3))  // SETNX
    case CIncr => Registration([73, 78, 67, 82], 2, Some(2))  // INCR
    case CIncrBy => Registration([73, 78, 67, 82, 66, 89], 3, Some(3))  // INCRBY
    case CDecr => Registration([68, 69, 67, 82], 2, Some(2))  // DECR
    case CDecrBy => Registration([68, 69, 67, 82, 66, 89], 3, Some(3))  // DECRBY
    case CDel => Registration([68, 69, 76], 2, None)  // DEL
    case CExists => Registration([69, 88, 73, 83, 84, 83], 2, None)  // EXISTS
    case CType => Registration([84, 89, 80, 69], 2, Some(2))  // TYPE
    case CExpire => Registration([69, 88, 80, 73, 82, 69], 3, Some(3))  // EXPIRE
    case CPExpire => Registration([80, 69, 88, 80, 73, 82, 69], 3, Some(3))  // PEXPIRE
    case CExpireAt => Registration([69, 88, 80, 73, 82, 69, 65, 84], 3, Some(3))  // EXPIREAT
    case CTtl => Registration([84, 84, 76], 2, Some(2))  // TTL
    case CPTtl => Registration([80, 84, 84, 76], 2, Some(2))  // PTTL
    case CPersist => Registration([80, 69, 82, 83, 73, 83, 84], 2, Some(2))  // PERSIST
    case CKeys => Registration([75, 69, 89, 83], 2, Some(2))  // KEYS
    case CRename => Registration([82, 69, 78, 65, 77, 69], 3, Some(3))  // RENAME
    case CDbSize => Registration([68, 66, 83, 73, 90, 69], 1, Some(1))  // DBSIZE
    case CPing => Registration([80, 73, 78, 71], 1, Some(2))  // PING
    case CEcho => Registration([69, 67, 72, 79], 2, Some(2))  // ECHO
    case CFlushDb => Registration([70, 76, 85, 83, 72, 68, 66], 1, Some(1))  // FLUSHDB
    case CSelect => Registration([83, 69, 76, 69, 67, 84], 2, Some(2))  // SELECT
    case CQuit => Registration([81, 85, 73, 84], 1, Some(1))  // QUIT
    case CInfo => Registration([73, 78, 70, 79], 1, Some(2))  // INFO
    case CSave => Registration([83, 65, 86, 69], 1, Some(1))  // SAVE
    case CBgSave => Registration([66, 71, 83, 65, 86, 69], 1, Some(1))  // BGSAVE
  }

  lemma {:induction false} ValueNames()
    ensures Ascii("SET") == [83, 69, 84]
    ensures Ascii("GET") == [71, 69, 84]
    ensures Ascii("GETSET") == [71, 69, 84, 83, 69, 84]
    ensures Ascii("MSET") == [77, 83, 69, 84]
    ensures Ascii("MGET") == [77, 71, 69, 84]
  {
  }

  lemma {:induction false} StoreNames()
    ensures Ascii("APPEND") == [65, 80, 80, 69, 78, 68]
    ensures Ascii("STRLEN") == [83, 84, 82, 76, 69, 78]
    ensures Ascii("SETEX") == [83, 69, 84, 69, 88]
    ensures Ascii("PSETEX") == [80, 83, 69, 84, 69, 88]
    ensures Ascii("SETNX") == [83, 69, 84, 78, 88]
  {
  }

  lemma {:induction false} CounterNames()
    ensures Ascii("INCR") == [73, 78, 67, 82]
    ensures Ascii("INCRBY") == [73, 78, 67, 82, 66, 89]
    ensures Ascii("DECR") == [68, 69, 67, 82]
    ensures Ascii("DECRBY") == [68, 69, 67, 82, 66, 89]
  {
  }

  lemma {:induction false} DeadlineNames()
    ensures Ascii("DEL") == [68, 69, 76]
    ensures Ascii("EXISTS") == [69, 88, 73, 83, 84, 83]
    ensures Ascii("TYPE") == [84, 89, 80, 69]
    ensures Ascii("EXPIRE") == [69, 88, 80, 73, 82, 69]
    ensures Ascii("PEXPIRE") == [80, 69, 88, 80, 73, 82, 69]
    ensures Ascii("EXPIREAT") == [69, 88, 80, 73, 82, 69, 65, 84]
  {
  }

  lemma {:induction false} KeyNames()
    ensures Ascii("TTL") == [84, 84, 76]
    ensures Ascii("PTTL") == [80, 84, 84, 76]
    ensures Ascii("PERSIST") == [80, 69, 82, 83, 73, 83, 84]
    ensures Ascii("KEYS") == [75, 69, 89, 83]
    ensures Ascii("RENAME") == [82, 69, 78, 65, 77, 69]
    ensures Ascii("DBSIZE") == [68, 66, 83, 73, 90, 69]
  {
  }

  lemma {:induction false} ServerNames()
    ensures Ascii("PING") == [80, 73, 78, 71]
    ensures Ascii("ECHO") == [69, 67, 72, 79]
    ensures Ascii("FLUSHDB") == [70, 76, 85, 83, 72, 68, 66]
    ensures Ascii("SELECT") == [83, 69, 76, 69, 67, 84]
    ensures Ascii("QUIT") == [81, 85, 73, 84]
    ensures Ascii("INFO") == [73, 78, 70, 79]
    ensures Ascii("SAVE") == [83, 65, 86, 69]
    ensures Ascii("BGSAVE") == [66, 71, 83, 65, 86, 69]
  {
  }

  lemma {:induction false} OneStringName(n: bytes, m: bytes)
    requires FindString(n).Some? && FindString(m) == FindString(n)
    ensures n == m && IsString(FindString(n).value)
  {
    hide Ascii;
  }

  lemma {:induction false} FindsString(n: bytes, c: Command)
    requires IsString(c) && n == Registered(c).name
    ensures FindString(n) == Some(c)
  {
    hide Ascii;
    ValueNames();
    StoreNames();
  }

  lemma {:induction false} OneCounterName(n: bytes, m: bytes)
    requires FindCounter(n).Some? && FindCounter(m) == FindCounter(n)
    ensures n == m && IsCounter(FindCounter(n).value)
  {
    hide Ascii;
  }

  lemma {:induction false} FindsCounter(n: bytes, c: Command)
    requires IsCounter(c) && n == Registered(c).name
    ensures FindCounter(n) == Some(c)
  {
    hide Ascii;
    CounterNames();
  }

  lemma {:induction false} OneKeyName(n: bytes, m: bytes)
    requires FindKey(n).Some? && FindKey(m) == FindKey(n)
    ensures n == m && IsKey(FindKey(n).value)
  {
    hide Ascii;
  }

  lemma {:induction false} FindsKey(n: bytes, c: Command)
    requires IsKey(c) && n == Registered(c).name
    ensures FindKey(n) == Some(c)
  {
    hide Ascii;
    DeadlineNames();
    KeyNames();
  }

  lemma {:induction false} OneServerName(n: bytes, m: bytes)
    requires FindServer(n).Some? && FindServer(m) == FindServer(n)
    ensures n == m && IsServer(FindServer(n).value)
  {
    hide Ascii;
  }

  lemma {:induction false} FindsServer(n: bytes, c: Command)
    requires IsServer(c) && n == Registered(c).name
    ensures FindServer(n) == Some(c)
  {
    hide Ascii;
    ServerNames();
  }

  lemma {:induction false} CounterIsNoString(n: bytes, c: Command)
    requires IsCounter(c) && n == Registered(c).name
    ensures FindString(n).None?
  {
    hide Ascii;
    ValueNames();
    StoreNames();
  }

  lemma {:induction false} KeyIsNoString(n: bytes, c: Command)
    requires IsKey(c) && n == Registered(c).name
    ensures FindString(n).None?
  {
    hide Ascii;
    ValueNames();
    StoreNames();
  }

  lemma {:induction false} KeyIsNoCounter(n: bytes, c: Command)
    requires IsKey(c) && n == Registered(c).name
    ensures FindCounter(n).None?
  {
    hide Ascii;
    CounterNames();
  }

  lemma {:induction false} ServerIsNoString(n: bytes, c: Command)
    requires IsServer(c) && n == Registered(c).name
    ensures FindString(n).None?
  {
    hide Ascii;
    ValueNames();
    StoreNames();
  }

  lemma {:induction false} ServerIsNoCounter(n: bytes, c: Command)
    requires IsServer(c) && n == Registered(c).name
    ensures FindCounter(n).None?
  {
    hide Ascii;
    CounterNames();
  }

  lemma {:induction false} ServerIsNoKey(n: bytes, c: Command)
    requires IsServer(c) && n == Registered(c).name
    ensures FindKey(n).None?
  {
    hide Ascii;
    DeadlineNames();
    KeyNames();
  }

  lemma {:induction false} FindUpper(name: bytes, c: Command)
    ensures Find(name) == Some(c) <==> Upper(name) == Registered(c).name
  {
    hide Upper, Registered, FindString, FindCounter, FindKey, FindServer;
    if Find(name) == Some(c) { FoundIs(Upper(name), c); }
    if Upper(name) == Registered(c).name { NameIsFound(Upper(name), c); }
  }

  lemma {:induction false} FoundIs(n: bytes, c: Command)
    requires FindString(n) == Some(c) || FindCounter(n) == Some(c) || FindKey(n) == Some(c) || FindServer(n) == Some(c)
    ensures n == Registered(c).name
  {
    hide Registered, FindString, FindCounter, FindKey, FindServer;
    var m := Registered(c).name;
    if FindString(n) == Some(c) {
      OneStringName(n, n);
      FindsString(m, c);
      OneStringName(n, m);
    } else if FindCounter(n) == Some(c) {
      OneCounterName(n, n);
      FindsCounter(m, c);
      OneCounterName(n, m);
    } else if FindKey(n) == Some(c) {
      OneKeyName(n, n);
      FindsKey(m, c);
      OneKeyName(n, m);
    } else if FindServer(n) == Some(c) {
      OneServerName(n, n);
      FindsServer(m, c);
      OneServerName(n, m);
    }
  }

  lemma {:induction false} NameIsFound(n: bytes, c: Command)
    requires n == Registered(c).name
    ensures FindString(n) == Some(c)
            || (FindString(n).None? && FindCounter(n) == Some(c))
            || (FindString(n).None? && FindCounter(n).None? && FindKey(n) == Some(c))
            || (FindString(n).None? && FindCounter(n).None? && FindKey(n).None? && FindServer(n) == Some(c))
  {
    hide Registered, FindString, FindCounter, FindKey, FindServer;
    if IsString(c) {
      FindsString(n, c);
    } else if IsCounter(c) {
      CounterIsNoString(n, c);
      FindsCounter(n, c);
    } else if IsKey(c) {
      KeyIsNoString(n, c);
      KeyIsNoCounter(n, c);
      FindsKey(n, c);
    } else {
      ServerIsNoString(n, c);
      ServerIsNoCounter(n, c);
      ServerIsNoKey(n, c);
      FindsServer(n, c);
    }
  }

  /** The numbers of arguments that the registry accepts. */
  lemma {:induction false} ArityIs(c: Command, n: nat)
    ensures ArityOk(c, n) <==> Registered(c).least <= n && (Registered(c).most.Some? ==> n <= Registered(c).most.value)
  {
  }

  predicate SameLetter(x: int, upper: int) {
    x == upper || x == upper + 32
  }

  /** `word` is `name`, each letter in upper or lower case. */
  predicate InEitherCase(word: bytes, name: bytes) {
    |word| == |name| && forall i | 0 <= i < |word| :: SameLetter(word[i], name[i])
  }

  predicate IsUpperCase(name: bytes) {
    forall i | 0 <= i < |name| :: 65 <= name[i] <= 90
  }

  lemma {:induction false} ValueNamesAreUpper(c: Command)
    requires IsString(c) || IsCounter(c)
    ensures IsUpperCase(Registered(c).name)
  {
  }

  lemma {:induction false} KeyNamesAreUpper(c: Command)
    requires IsKey(c)
    ensures IsUpperCase(Registered(c).name)
  {
  }

  lemma {:induction false} ServerNamesAreUpper(c: Command)
    requires IsServer(c)
    ensures IsUpperCase(Registered(c).name)
  {
  }

  lemma {:induction false} NamesAreUpper(c: Command)
    ensures IsUpperCase(Registered(c).name)
  {
    hide Registered, IsUpperCase;
    if IsString(c) || IsCounter(c) {
      ValueNamesAreUpper(c);
    } else if IsKey(c) {
      KeyNamesAreUpper(c);
    } else {
      ServerNamesAreUpper(c);
    }
  }

  /** Exactly the registered names are found, in either case. */
  lemma {:induction false} FindIs(word: bytes, c: Command)
    ensures Find(word) == Some(c) <==> InEitherCase(word, Registered(c).name)
  {
    hide Registered, Find;
    var name, upper := Registered(c).name, Upper(word);
    NamesAreUpper(c);
    FindUpper(word, c);
    if upper == name {
      forall i | 0 <= i < |word| ensures SameLetter(word[i], name[i]) { assert upper[i] == name[i]; }
    }
    if InEitherCase(word, name) { assert upper == name; }
  }
}
