/** The folders of a PST file that are never imported: deleted items and junk
    mail, under their names in the languages the importer knows. */
module PstFolderNames {
  import JsStrings

  /** Localised names of the deleted-items folder, lower-case. */
  const DeletedFolders: seq<string> := [
    "deleted items", "trash", "elementos eliminados", "papelera",
    "\U{00E9}l\U{00E9}ments supprim\U{00E9}s", "corbeille", "gel\U{00F6}schte elemente", "papierkorb",
    "posta eliminata", "cestino", "itens exclu\U{00ED}dos", "lixo", "verwijderde items", "prullenbak",
    "\U{0443}\U{0434}\U{0430}\U{043B}\U{0435}\U{043D}\U{043D}\U{044B}\U{0435}",
    "\U{043A}\U{043E}\U{0440}\U{0437}\U{0438}\U{043D}\U{0430}",
    "usuni\U{0119}te elementy", "kosz",
    "\U{524A}\U{9664}\U{6E08}\U{307F}\U{30A2}\U{30A4}\U{30C6}\U{30E0}",
    "odstran\U{011B}n\U{00E1} po\U{0161}ta", "ko\U{0161}", "kustutatud kirjad", "pr\U{00FC}gikast",
    "borttagna objekt", "skr\U{00E4}p", "slettet post", "papirkurv", "slettede elementer",
    "poistetut", "roskakori"
  ]

  /** Localised names of the junk-mail folder, lower-case. */
  const JunkFolders: seq<string> := [
    "junk email", "spam", "correo no deseado", "courrier ind\U{00E9}sirable", "junk-e-mail",
    "posta indesiderata", "lixo eletr\U{00F4}nico", "ongewenste e-mail",
    "\U{043D}\U{0435}\U{0436}\U{0435}\U{043B}\U{0430}\U{0442}\U{0435}\U{043B}\U{044C}\U{043D}\U{0430}\U{044F} \U{043F}\U{043E}\U{0447}\U{0442}\U{0430}",
    "\U{0441}\U{043F}\U{0430}\U{043C}",
    "wiadomo\U{015B}ci-\U{015B}mieci", "\U{8FF7}\U{60D1}\U{30E1}\U{30FC}\U{30EB}", "\U{30B9}\U{30D1}\U{30E0}",
    "nevy\U{017E}\U{00E1}dan\U{00E1} po\U{0161}ta", "r\U{00E4}mpspost", "skr\U{00E4}ppost",
    "u\U{00F8}nsket post", "s\U{00F8}ppelpost", "roskaposti"
  ]

  /** Membership in a list of names, one name at a time. */
  predicate Listed(name: string, names: seq<string>) {
    names != [] && (names[0] == name || Listed(name, names[1..]))
  }

  lemma {:induction false} ListedIff(name: string, names: seq<string>)
    ensures Listed(name, names) <==> name in names
  {
    if names != [] {
      ListedIff(name, names[1..]);
      assert names == [names[0]] + names[1..];
    }
  }

  /** `DELETED_FOLDERS.has(name) || JUNK_FOLDERS.has(name)`: the two sets are
      kept as lists of their members. */
  predicate Denied(name: string) {
    Listed(name, DeletedFolders) || Listed(name, JunkFolders)
  }

  /** The deny-list holds exactly the members of the two sets. */
  lemma DeniedIff(name: string)
    ensures Denied(name) <==> name in DeletedFolders || name in JunkFolders
  {
    ListedIff(name, DeletedFolders);
    ListedIff(name, JunkFolders);
  }
}
