/** The constants of the example program xor-o-rama.c: the key of crypt and the encrypted flag array,
    and the check that the array holds the encrypted flag text. The constants are written as
    lookups by position, one case per entry of the C initialisers. */
module XorFlag {
  import opened Stdin

  /** Character `i` of the decrypted flag, without the newline it ends in. */
  function KeyAt(i: int): char
  {
    match i
      case 0 => 'C'  case 1 => 'T'  case 2 => 'F'  case 3 => '{'  case 4 => 'n'  case 5 => '0'
      case 6 => '_'  case 7 => 'w'  case 8 => '4'  case 9 => 'y'  case 10 => '_' case 11 => 'y'
      case 12 => '0' case 13 => 'u' case 14 => '_' case 15 => '$' case 16 => '0' case 17 => 'l'
      case 18 => 'v' case 19 => '3' case 20 => 'd' case 21 => '_' case 22 => 't' case 23 => 'h'
      case 24 => '4' case 25 => 't' case 26 => '}' case _ => ' '
  }

  /** The key to recover. */
  const Key: string := seq(27, KeyAt)

  lemma KeyText()
    ensures Key == "CTF{n0_w4y_y0u_$0lv3d_th4t}"
  {
  }

  /** `magicVal[i % 8]`: the key byte of crypt that position `i` is encrypted with. */
  function MagicAt(i: nat): bv8
  {
    match i % 8
      case 0 => 0x23 case 1 => 0x42 case 2 => 0x13 case 3 => 0x37
      case 4 => 0x0B case 5 => 0x0E case 6 => 0x0E case _ => 0x0F
  }

  /** Entry `i` of `int flag[BUFSIZE] = ...`: 28 encrypted bytes, then 0 to the end. */
  function FlagAt(i: int): int
  {
    match i
      case 0 => 0x60  case 1 => 0x16  case 2 => 0x55  case 3 => 0x4c  case 4 => 0x65
      case 5 => 0x3e  case 6 => 0x51  case 7 => 0x78  case 8 => 0x17  case 9 => 0x3b
      case 10 => 0x4c case 11 => 0x4e case 12 => 0x3b case 13 => 0x7b case 14 => 0x51
      case 15 => 0x2b case 16 => 0x13 case 17 => 0x2e case 18 => 0x65 case 19 => 0x04
      case 20 => 0x6f case 21 => 0x51 case 22 => 0x7a case 23 => 0x67 case 24 => 0x17
      case 25 => 0x36 case 26 => 0x6e case 27 => 0x3d case _ => 0
  }

  /** The flag array. */
  const Flag: seq<int> := seq(BufSize, FlagAt)

  /** A byte of the `char` buffer as the int it compares as: `char` is signed. */
  function Signed(b: bv8): int
  {
    if b < 0x80 then b as int else b as int - 0x100
  }

  /** Entry `k` of the flag array is key character `k`, encrypted, and it is not zero. */
  predicate Row(k: nat)
  {
    (KeyAt(k) as int) < 256 && FlagAt(k) == Signed((KeyAt(k) as bv8) ^ MagicAt(k)) && FlagAt(k) != 0
  }

  /** Position `k` of `flag` holds character `k` of `key`, encrypted, and is not zero. */
  predicate Encrypted(key: string, flag: seq<int>, k: nat)
  {
    k < |key| && k < |flag| && flag[k] == Signed(Byte(key[k]) ^ MagicAt(k)) && flag[k] != 0
  }

  /** A row is the key of the example, encrypted into the flag array of the example. */
  lemma RowEncrypted(k: nat)
    requires k < 27 && Row(k)
    ensures Encrypted(Key, Flag, k)
  {
    ByteOfSmall(KeyAt(k));
    assert Key[k] == KeyAt(k) && Flag[k] == FlagAt(k);
  }

  /** The byte of a character below 256 is its code. */
  lemma ByteOfSmall(c: char)
    requires (c as int) < 256
    ensures Byte(c) == c as bv8
  {
    ByteValue(c);
  }

  /** A property of three consecutive positions holds at each of them. */
  lemma Pick3(p: nat -> bool, a: nat, k: nat)
    requires p(a) && p(a + 1) && p(a + 2) && a <= k < a + 3
    ensures p(k)
  {
    if k == a + 1 {
      assert p(a + 1);
    } else if k == a + 2 {
      assert p(a + 2);
    }
  }

  /** The flag array, checked three entries at a time. */
  lemma EncryptedFirst()
    ensures Row(0) && Row(1) && Row(2)
  {
  }

  lemma EncryptedSecond()
    ensures Row(3) && Row(4) && Row(5)
  {
  }

  lemma EncryptedThird()
    ensures Row(6) && Row(7) && Row(8)
  {
  }

  lemma EncryptedFourth()
    ensures Row(9) && Row(10) && Row(11)
  {
  }

  lemma EncryptedFifth()
    ensures Row(12) && Row(13) && Row(14)
  {
  }

  lemma EncryptedSixth()
    ensures Row(15) && Row(16) && Row(17)
  {
  }

  lemma EncryptedSeventh()
    ensures Row(18) && Row(19) && Row(20)
  {
  }

  lemma EncryptedEighth()
    ensures Row(21) && Row(22) && Row(23)
  {
  }

  lemma EncryptedNinth()
    ensures Row(24) && Row(25) && Row(26)
  {
  }

  /** Every character of the key is encrypted at its position of the flag array. */
  lemma FlagByte(k: nat)
    requires k < |Key|
    ensures Encrypted(Key, Flag, k)
  {
    if k < 3 {
      EncryptedFirst();
      Pick3(Row, 0, k);
    } else if k < 6 {
      EncryptedSecond();
      Pick3(Row, 3, k);
    } else if k < 9 {
      EncryptedThird();
      Pick3(Row, 6, k);
    } else if k < 12 {
      EncryptedFourth();
      Pick3(Row, 9, k);
    } else if k < 15 {
      EncryptedFifth();
      Pick3(Row, 12, k);
    } else if k < 18 {
      EncryptedSixth();
      Pick3(Row, 15, k);
    } else if k < 21 {
      EncryptedSeventh();
      Pick3(Row, 18, k);
    } else if k < 24 {
      EncryptedEighth();
      Pick3(Row, 21, k);
    } else {
      EncryptedNinth();
      Pick3(Row, 24, k);
    }
    RowEncrypted(k);
  }

  /** After the key, the encrypted newline and the end of the flag. */
  lemma EncryptedNewline()
    ensures |Key| == 27 && |Flag| == BufSize
    ensures Flag[27] == Signed(Newline ^ MagicAt(27)) && Flag[27] != 0 && Flag[28] == 0
  {
  }
}
