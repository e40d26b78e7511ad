/** The names under which the originals of a letter's parts are kept in the backup bucket. */
module BackupKeys {

  function Decimal(n: nat): string {
    if n < 10 then ["0123456789"[n]] else Decimal(n / 10) + ["0123456789"[n % 10]]
  }

  predicate IsNumeral(s: string) {
    s != "" && (forall i :: 0 <= i < |s| ==> '0' <= s[i] <= '9') && (|s| > 1 ==> s[0] != '0')
  }

  /** The number that a numeral denotes. */
  function ValueOf(s: string): int {
    if s == "" then 0 else 10 * ValueOf(s[..|s| - 1]) + (s[|s| - 1] as int - '0' as int)
  }

  /** The decimal form of a number is the numeral without leading zeros that denotes it. */
  lemma {:induction false} DecimalDenotes(n: nat)
    ensures IsNumeral(Decimal(n)) && ValueOf(Decimal(n)) == n
    ensures n > 0 ==> Decimal(n)[0] != '0'
  {
    var digit := "0123456789"[n % 10];
    assert digit as int - '0' as int == n % 10;
    if n < 10 {
      assert Decimal(n) == [digit] && [digit][..0] == "";
      assert ValueOf("") == 0;
    } else {
      DecimalDenotes(n / 10);
      assert Decimal(n)[..|Decimal(n)| - 1] == Decimal(n / 10);
    }
  }

  lemma DecimalIsInjective(m: nat, n: nat)
    requires Decimal(m) == Decimal(n)
    ensures m == n
  {
    DecimalDenotes(m);
    DecimalDenotes(n);
  }

  /** Part 0 is kept as "id.pdf", the siblings as "id.part2.pdf", "id.part3.pdf" and so on. */
  function BackupKey(id: string, k: nat): string {
    if k == 0 then id + ".pdf" else id + ".part" + Decimal(k + 1) + ".pdf"
  }

  /** Different parts never share a backup key. */
  lemma BackupKeysAreDistinct(id: string, j: nat, k: nat)
    requires BackupKey(id, j) == BackupKey(id, k)
    ensures j == k
  {
    var a, b := BackupKey(id, j), BackupKey(id, k);
    var n := |id|;
    if j > 0 && k > 0 {
      assert a[n + 5..|a| - 4] == Decimal(j + 1);
      assert b[n + 5..|b| - 4] == Decimal(k + 1);
      DecimalIsInjective(j + 1, k + 1);
    } else {
      assert a[n + 2] == if j == 0 then 'd' else 'a';
      assert b[n + 2] == if k == 0 then 'd' else 'a';
    }
  }
}
