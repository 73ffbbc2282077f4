/** The dialect choice of `HibernateManager` (`getDialect` and `getDefaultDialect` in
    server/src/main/java/com/querytester/HibernateManager.java): the dialect class follows from
    the first known database name the JDBC URL contains and from the Hibernate version's family. */
module HibernateDialect {
  import opened Wrappers
  import opened Text

  const DialectPackage := "org.hibernate.dialect."

  /** `hibernateVersion.startsWith("6")`. */
  predicate IsSix(version: string) {
    StartsAt(version, 0, "6")
  }

  /** `getDefaultDialect`. */
  function DefaultDialect(version: string): string {
    if IsSix(version) then DialectPackage + "MySQLDialect" else DialectPackage + "MySQL8Dialect"
  }

  /** `getDialect`: the URL fragments are tried in a fixed order and the first one the URL
      contains decides; a `null` URL or a URL with none of them gets the default. */
  function GetDialect(url: Option<string>, version: string): string {
    if url.None? then DefaultDialect(version)
    else
      var u := url.value;
      if IsSix(version) then
        if Contains(u, "mysql") then DialectPackage + "MySQLDialect"
        else if Contains(u, "mariadb") then DialectPackage + "MariaDBDialect"
        else if Contains(u, "postgresql") then DialectPackage + "PostgreSQLDialect"
        else if Contains(u, "h2") then DialectPackage + "H2Dialect"
        else if Contains(u, "oracle") then DialectPackage + "OracleDialect"
        else if Contains(u, "sqlserver") then DialectPackage + "SQLServerDialect"
        else DialectPackage + "MySQLDialect"
      else
        if Contains(u, "mysql") then DialectPackage + "MySQL8Dialect"
        else if Contains(u, "mariadb") then DialectPackage + "MariaDB103Dialect"
        else if Contains(u, "postgresql") then DialectPackage + "PostgreSQL10Dialect"
        else if Contains(u, "h2") then DialectPackage + "H2Dialect"
        else if Contains(u, "oracle") then DialectPackage + "Oracle12cDialect"
        else if Contains(u, "sqlserver") then DialectPackage + "SQLServer2012Dialect"
        else DialectPackage + "MySQL8Dialect"
  }

  /** The URL fragments in the order they are tried. */
  const Fragments := ["mysql", "mariadb", "postgresql", "h2", "oracle", "sqlserver"]

  /** The dialect class names of one family, in the order of `Fragments`. */
  function FamilyDialects(six: bool): (r: seq<string>)
    ensures |r| == |Fragments|
  {
    if six then ["MySQLDialect", "MariaDBDialect", "PostgreSQLDialect", "H2Dialect", "OracleDialect", "SQLServerDialect"]
    else ["MySQL8Dialect", "MariaDB103Dialect", "PostgreSQL10Dialect", "H2Dialect", "Oracle12cDialect", "SQLServer2012Dialect"]
  }

  /** The position of the first fragment of `fragments` that `url` contains, from `i` on. */
  function FirstFragment(url: string, fragments: seq<string>, i: nat): (r: Option<nat>)
    requires i <= |fragments|
    ensures r.Some? ==> i <= r.value < |fragments| && Contains(url, fragments[r.value])
    ensures r.Some? ==> forall j :: i <= j < r.value ==> !Contains(url, fragments[j])
    ensures r.None? ==> forall j :: i <= j < |fragments| ==> !Contains(url, fragments[j])
    decreases |fragments| - i
  {
    if i == |fragments| then None
    else if Contains(url, fragments[i]) then Some(i)
    else FirstFragment(url, fragments, i + 1)
  }

  /** The dialect the table gives: the first contained fragment's entry, the family's first
      entry (the MySQL one) otherwise. */
  function TableDialect(url: Option<string>, version: string): string {
    var names := FamilyDialects(IsSix(version));
    var hit := if url.None? then None else FirstFragment(url.value, Fragments, 0);
    DialectPackage + (if hit.Some? then names[hit.value] else names[0])
  }

  /** `getDialect` is the ordered table lookup: its if-chain and the table agree on every URL
      and version. */
  lemma GetDialectIsTableLookup(url: Option<string>, version: string)
    ensures GetDialect(url, version) == TableDialect(url, version)
  {
    if url.Some? {
      var u := url.value;
      var names := FamilyDialects(IsSix(version));
      var hit := FirstFragment(u, Fragments, 0);
      if hit.Some? {
        FragmentHit(u, hit.value);
        assert GetDialect(url, version) == DialectPackage + names[hit.value];
      } else {
        NoFragment(u);
      }
    }
  }

  /** The first fragment hit, unrolled over the six positions. */
  lemma FragmentHit(u: string, k: nat)
    requires FirstFragment(u, Fragments, 0) == Some(k)
    ensures k == 0 <==> Contains(u, "mysql")
    ensures k == 1 <==> !Contains(u, "mysql") && Contains(u, "mariadb")
    ensures k == 2 <==> !Contains(u, "mysql") && !Contains(u, "mariadb") && Contains(u, "postgresql")
    ensures k == 3 <==> !Contains(u, "mysql") && !Contains(u, "mariadb") && !Contains(u, "postgresql") && Contains(u, "h2")
    ensures k == 4 <==> (!Contains(u, "mysql") && !Contains(u, "mariadb") && !Contains(u, "postgresql") &&
      !Contains(u, "h2") && Contains(u, "oracle"))
    ensures k == 5 <==> (!Contains(u, "mysql") && !Contains(u, "mariadb") && !Contains(u, "postgresql") &&
      !Contains(u, "h2") && !Contains(u, "oracle"))
  {
    assert Fragments[0] == "mysql" && Fragments[1] == "mariadb" && Fragments[2] == "postgresql";
    assert Fragments[3] == "h2" && Fragments[4] == "oracle" && Fragments[5] == "sqlserver";
  }

  lemma NoFragment(u: string)
    requires FirstFragment(u, Fragments, 0).None?
    ensures !Contains(u, "mysql") && !Contains(u, "mariadb") && !Contains(u, "postgresql")
    ensures !Contains(u, "h2") && !Contains(u, "oracle") && !Contains(u, "sqlserver")
  {
    assert Fragments[0] == "mysql" && Fragments[1] == "mariadb" && Fragments[2] == "postgresql";
    assert Fragments[3] == "h2" && Fragments[4] == "oracle" && Fragments[5] == "sqlserver";
  }

  /** A `null` URL, and a URL that names none of the known databases, get the default of the
      version's family, which is the dialect a MySQL URL gets. */
  lemma UnknownUrlGetsDefault(url: Option<string>, version: string)
    requires url.Some? ==> forall j :: 0 <= j < |Fragments| ==> !Contains(url.value, Fragments[j])
    ensures GetDialect(url, version) == DefaultDialect(version)
    ensures DefaultDialect(version) == DialectPackage + FamilyDialects(IsSix(version))[0]
  {
    GetDialectIsTableLookup(url, version);
    if url.Some? {
      assert FirstFragment(url.value, Fragments, 0).None?;
    }
  }

  /** Only the family of the version matters, not the rest of the version string. */
  lemma DialectDependsOnFamilyOnly(url: Option<string>, v: string, w: string)
    requires IsSix(v) == IsSix(w)
    ensures GetDialect(url, v) == GetDialect(url, w)
  {
    GetDialectIsTableLookup(url, v);
    GetDialectIsTableLookup(url, w);
  }

  /** A URL naming MySQL gets the MySQL dialect whatever else it names: `mysql` is tried first. */
  lemma MySqlWins(u: string, version: string)
    requires Contains(u, "mysql")
    ensures GetDialect(Some(u), version) == DialectPackage + FamilyDialects(IsSix(version))[0]
  {
    GetDialectIsTableLookup(Some(u), version);
    assert Fragments[0] == "mysql";
  }
}
