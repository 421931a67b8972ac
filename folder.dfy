/**
 * `get_server_folder_name` (bot.py, lines 444-453): the data folder of a server is
 * `servers/<id>-<name>`, the name cut to 128 characters with every character a file system
 * rejects replaced by `_`.
 */
module Folders {
  import opened Base
  import opened Text

  /** The root directory holding one folder per server. */
  const ServerRoot: string := "servers"

  /** The longest prefix of the server name kept in the folder name. */
  const NameLimit: nat := 128

  /** The 22 characters replaced by `_`, in the order the replace loop visits them. */
  const IllegalChars: seq<char> :=
    ['#', '%', '&', '{', '}', '\\', '<', '>', '*', '?', '/', ' ', '$', '!', '\'', '"', ':', '@', '+', '`', '|', '=']

  function SafeChar(c: char): char {
    if c in IllegalChars then '_' else c
  }

  /** The sanitised name: cut, then each illegal character turned into `_`. */
  function Sanitized(name: string): (r: string)
    ensures |r| == Min(|name|, NameLimit)
    ensures forall i :: 0 <= i < |r| ==> r[i] !in IllegalChars
  {
    var kept := name[..Min(|name|, NameLimit)];
    seq(|kept|, i requires 0 <= i < |kept| => SafeChar(kept[i]))
  }

  /** `str.replace(c, '_')` for a single character `c`. */
  function ReplaceChar(s: string, c: char): (r: string)
    ensures |r| == |s|
  {
    seq(|s|, i requires 0 <= i < |s| => if s[i] == c then '_' else s[i])
  }

  /**
   * The loop of `get_server_folder_name`: cut the name, then one `replace` per illegal
   * character.
   */
  method SanitizeName(name: string) returns (r: string)
    ensures r == Sanitized(name)
  {
    r := name[..Min(|name|, NameLimit)];
    for k := 0 to |IllegalChars|
      invariant |r| == Min(|name|, NameLimit)
      invariant forall i :: 0 <= i < |r| ==>
                  r[i] == (if name[i] in IllegalChars[..k] then '_' else name[i])
    {
      r := ReplaceChar(r, IllegalChars[k]);
      assert forall j :: 0 <= j <= k ==> IllegalChars[..k + 1][j] == IllegalChars[j];
    }
    assert IllegalChars[..|IllegalChars|] == IllegalChars;
  }

  /** The folder path: root, `/`, the id's decimal digits, `-`, the sanitised name. */
  function ServerFolder(id: nat, name: string): (path: string)
    ensures |path| <= |ServerRoot| + 1 + |ShowNat(id)| + 1 + NameLimit
  {
    ServerRoot + "/" + ShowNat(id) + "-" + Sanitized(name)
  }

  /** Sanitising leaves a name that is already short and legal as it is. */
  lemma SanitizedKeepsLegal(name: string)
    requires |name| <= NameLimit
    requires forall i :: 0 <= i < |name| ==> name[i] !in IllegalChars
    ensures Sanitized(name) == name
  {
    assert name[..|name|] == name;
  }

  /** Sanitising twice is sanitising once. */
  lemma SanitizedIdempotent(name: string)
    ensures Sanitized(Sanitized(name)) == Sanitized(name)
  {
    SanitizedKeepsLegal(Sanitized(name));
  }

  /**
   * Two servers with different ids never share a folder, whatever their names: the id is
   * read back from the digits before the first `-`.
   */
  lemma ServerFolderSeparatesIds(a: nat, nameA: string, b: nat, nameB: string)
    requires ServerFolder(a, nameA) == ServerFolder(b, nameB)
    ensures a == b
  {
    var pa, pb := ShowNat(a), ShowNat(b);
    var prefix := ServerRoot + "/";
    assert ServerFolder(a, nameA) == prefix + (pa + ['-'] + Sanitized(nameA));
    assert ServerFolder(b, nameB) == prefix + (pb + ['-'] + Sanitized(nameB));
    var restA, restB := pa + ['-'] + Sanitized(nameA), pb + ['-'] + Sanitized(nameB);
    assert restA == ServerFolder(a, nameA)[|prefix|..];
    assert restB == ServerFolder(b, nameB)[|prefix|..];
    assert '-' !in pa && '-' !in pb;
    SplitFirst(pa, '-', Sanitized(nameA));
    SplitFirst(pb, '-', Sanitized(nameB));
    assert Split(restA, '-')[0] == pa;
    assert Split(restB, '-')[0] == pb;
    ShowInjective(a, b);
  }
}
