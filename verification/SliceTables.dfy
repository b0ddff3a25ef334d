/** Tables 1 to 3 of crc32.h, which the slice-by-four step reads, and what they must agree with. */
module SliceTables {
  import opened CrcTable

  function Table1Row0(j: bv4): bv32 {
    match j
    case 0 => 0x00000000 case 1 => 0x191b3141 case 2 => 0x32366282 case 3 => 0x2b2d53c3
    case 4 => 0x646cc504 case 5 => 0x7d77f445 case 6 => 0x565aa786 case 7 => 0x4f4196c7
    case 8 => 0xc8d98a08 case 9 => 0xd1c2bb49 case 10 => 0xfaefe88a case 11 => 0xe3f4d9cb
    case 12 => 0xacb54f0c case 13 => 0xb5ae7e4d case 14 => 0x9e832d8e case 15 => 0x87981ccf
  }

  function Table1Row1(j: bv4): bv32 {
    match j
    case 0 => 0x4ac21251 case 1 => 0x53d92310 case 2 => 0x78f470d3 case 3 => 0x61ef4192
    case 4 => 0x2eaed755 case 5 => 0x37b5e614 case 6 => 0x1c98b5d7 case 7 => 0x05838496
    case 8 => 0x821b9859 case 9 => 0x9b00a918 case 10 => 0xb02dfadb case 11 => 0xa936cb9a
    case 12 => 0xe6775d5d case 13 => 0xff6c6c1c case 14 => 0xd4413fdf case 15 => 0xcd5a0e9e
  }

  function Table1Row2(j: bv4): bv32 {
    match j
    case 0 => 0x958424a2 case 1 => 0x8c9f15e3 case 2 => 0xa7b24620 case 3 => 0xbea97761
    case 4 => 0xf1e8e1a6 case 5 => 0xe8f3d0e7 case 6 => 0xc3de8324 case 7 => 0xdac5b265
    case 8 => 0x5d5daeaa case 9 => 0x44469feb case 10 => 0x6f6bcc28 case 11 => 0x7670fd69
    case 12 => 0x39316bae case 13 => 0x202a5aef case 14 => 0x0b07092c case 15 => 0x121c386d
  }

  function Table1Row3(j: bv4): bv32 {
    match j
    case 0 => 0xdf4636f3 case 1 => 0xc65d07b2 case 2 => 0xed705471 case 3 => 0xf46b6530
    case 4 => 0xbb2af3f7 case 5 => 0xa231c2b6 case 6 => 0x891c9175 case 7 => 0x9007a034
    case 8 => 0x179fbcfb case 9 => 0x0e848dba case 10 => 0x25a9de79 case 11 => 0x3cb2ef38
    case 12 => 0x73f379ff case 13 => 0x6ae848be case 14 => 0x41c51b7d case 15 => 0x58de2a3c
  }

  function Table1Row4(j: bv4): bv32 {
    match j
    case 0 => 0xf0794f05 case 1 => 0xe9627e44 case 2 => 0xc24f2d87 case 3 => 0xdb541cc6
    case 4 => 0x94158a01 case 5 => 0x8d0ebb40 case 6 => 0xa623e883 case 7 => 0xbf38d9c2
    case 8 => 0x38a0c50d case 9 => 0x21bbf44c case 10 => 0x0a96a78f case 11 => 0x138d96ce
    case 12 => 0x5ccc0009 case 13 => 0x45d73148 case 14 => 0x6efa628b case 15 => 0x77e153ca
  }

  function Table1Row5(j: bv4): bv32 {
    match j
    case 0 => 0xbabb5d54 case 1 => 0xa3a06c15 case 2 => 0x888d3fd6 case 3 => 0x91960e97
    case 4 => 0xded79850 case 5 => 0xc7cca911 case 6 => 0xece1fad2 case 7 => 0xf5facb93
    case 8 => 0x7262d75c case 9 => 0x6b79e61d case 10 => 0x4054b5de case 11 => 0x594f849f
    case 12 => 0x160e1258 case 13 => 0x0f152319 case 14 => 0x243870da case 15 => 0x3d23419b
  }

  function Table1Row6(j: bv4): bv32 {
    match j
    case 0 => 0x65fd6ba7 case 1 => 0x7ce65ae6 case 2 => 0x57cb0925 case 3 => 0x4ed03864
    case 4 => 0x0191aea3 case 5 => 0x188a9fe2 case 6 => 0x33a7cc21 case 7 => 0x2abcfd60
    case 8 => 0xad24e1af case 9 => 0xb43fd0ee case 10 => 0x9f12832d case 11 => 0x8609b26c
    case 12 => 0xc94824ab case 13 => 0xd05315ea case 14 => 0xfb7e4629 case 15 => 0xe2657768
  }

  function Table1Row7(j: bv4): bv32 {
    match j
    case 0 => 0x2f3f79f6 case 1 => 0x362448b7 case 2 => 0x1d091b74 case 3 => 0x04122a35
    case 4 => 0x4b53bcf2 case 5 => 0x52488db3 case 6 => 0x7965de70 case 7 => 0x607eef31
    case 8 => 0xe7e6f3fe case 9 => 0xfefdc2bf case 10 => 0xd5d0917c case 11 => 0xcccba03d
    case 12 => 0x838a36fa case 13 => 0x9a9107bb case 14 => 0xb1bc5478 case 15 => 0xa8a76539
  }

  function Table1Row8(j: bv4): bv32 {
    match j
    case 0 => 0x3b83984b case 1 => 0x2298a90a case 2 => 0x09b5fac9 case 3 => 0x10aecb88
    case 4 => 0x5fef5d4f case 5 => 0x46f46c0e case 6 => 0x6dd93fcd case 7 => 0x74c20e8c
    case 8 => 0xf35a1243 case 9 => 0xea412302 case 10 => 0xc16c70c1 case 11 => 0xd8774180
    case 12 => 0x9736d747 case 13 => 0x8e2de606 case 14 => 0xa500b5c5 case 15 => 0xbc1b8484
  }

  function Table1Row9(j: bv4): bv32 {
    match j
    case 0 => 0x71418a1a case 1 => 0x685abb5b case 2 => 0x4377e898 case 3 => 0x5a6cd9d9
    case 4 => 0x152d4f1e case 5 => 0x0c367e5f case 6 => 0x271b2d9c case 7 => 0x3e001cdd
    case 8 => 0xb9980012 case 9 => 0xa0833153 case 10 => 0x8bae6290 case 11 => 0x92b553d1
    case 12 => 0xddf4c516 case 13 => 0xc4eff457 case 14 => 0xefc2a794 case 15 => 0xf6d996d5
  }

  function Table1RowA(j: bv4): bv32 {
    match j
    case 0 => 0xae07bce9 case 1 => 0xb71c8da8 case 2 => 0x9c31de6b case 3 => 0x852aef2a
    case 4 => 0xca6b79ed case 5 => 0xd37048ac case 6 => 0xf85d1b6f case 7 => 0xe1462a2e
    case 8 => 0x66de36e1 case 9 => 0x7fc507a0 case 10 => 0x54e85463 case 11 => 0x4df36522
    case 12 => 0x02b2f3e5 case 13 => 0x1ba9c2a4 case 14 => 0x30849167 case 15 => 0x299fa026
  }

  function Table1RowB(j: bv4): bv32 {
    match j
    case 0 => 0xe4c5aeb8 case 1 => 0xfdde9ff9 case 2 => 0xd6f3cc3a case 3 => 0xcfe8fd7b
    case 4 => 0x80a96bbc case 5 => 0x99b25afd case 6 => 0xb29f093e case 7 => 0xab84387f
    case 8 => 0x2c1c24b0 case 9 => 0x350715f1 case 10 => 0x1e2a4632 case 11 => 0x07317773
    case 12 => 0x4870e1b4 case 13 => 0x516bd0f5 case 14 => 0x7a468336 case 15 => 0x635db277
  }

  function Table1RowC(j: bv4): bv32 {
    match j
    case 0 => 0xcbfad74e case 1 => 0xd2e1e60f case 2 => 0xf9ccb5cc case 3 => 0xe0d7848d
    case 4 => 0xaf96124a case 5 => 0xb68d230b case 6 => 0x9da070c8 case 7 => 0x84bb4189
    case 8 => 0x03235d46 case 9 => 0x1a386c07 case 10 => 0x31153fc4 case 11 => 0x280e0e85
    case 12 => 0x674f9842 case 13 => 0x7e54a903 case 14 => 0x5579fac0 case 15 => 0x4c62cb81
  }

  function Table1RowD(j: bv4): bv32 {
    match j
    case 0 => 0x8138c51f case 1 => 0x9823f45e case 2 => 0xb30ea79d case 3 => 0xaa1596dc
    case 4 => 0xe554001b case 5 => 0xfc4f315a case 6 => 0xd7626299 case 7 => 0xce7953d8
    case 8 => 0x49e14f17 case 9 => 0x50fa7e56 case 10 => 0x7bd72d95 case 11 => 0x62cc1cd4
    case 12 => 0x2d8d8a13 case 13 => 0x3496bb52 case 14 => 0x1fbbe891 case 15 => 0x06a0d9d0
  }

  function Table1RowE(j: bv4): bv32 {
    match j
    case 0 => 0x5e7ef3ec case 1 => 0x4765c2ad case 2 => 0x6c48916e case 3 => 0x7553a02f
    case 4 => 0x3a1236e8 case 5 => 0x230907a9 case 6 => 0x0824546a case 7 => 0x113f652b
    case 8 => 0x96a779e4 case 9 => 0x8fbc48a5 case 10 => 0xa4911b66 case 11 => 0xbd8a2a27
    case 12 => 0xf2cbbce0 case 13 => 0xebd08da1 case 14 => 0xc0fdde62 case 15 => 0xd9e6ef23
  }

  function Table1RowF(j: bv4): bv32 {
    match j
    case 0 => 0x14bce1bd case 1 => 0x0da7d0fc case 2 => 0x268a833f case 3 => 0x3f91b27e
    case 4 => 0x70d024b9 case 5 => 0x69cb15f8 case 6 => 0x42e6463b case 7 => 0x5bfd777a
    case 8 => 0xdc656bb5 case 9 => 0xc57e5af4 case 10 => 0xee530937 case 11 => 0xf7483876
    case 12 => 0xb809aeb1 case 13 => 0xa1129ff0 case 14 => 0x8a3fcc33 case 15 => 0x9324fd72
  }

  /** crc_table[1][i]. */
  function Lookup1(i: bv8): bv32 {
    var lo := (i & 0xF) as bv4;
    match (i >> 4) as bv4
    case 0 => Table1Row0(lo) case 1 => Table1Row1(lo) case 2 => Table1Row2(lo) case 3 => Table1Row3(lo)
    case 4 => Table1Row4(lo) case 5 => Table1Row5(lo) case 6 => Table1Row6(lo) case 7 => Table1Row7(lo)
    case 8 => Table1Row8(lo) case 9 => Table1Row9(lo) case 10 => Table1RowA(lo) case 11 => Table1RowB(lo)
    case 12 => Table1RowC(lo) case 13 => Table1RowD(lo) case 14 => Table1RowE(lo) case 15 => Table1RowF(lo)
  }

  lemma Table1Below0x80(i: bv8)
    requires i < 0x80
    ensures Lookup1(i) == Step8(Lookup(i))
  {
  }

  lemma Table1From0x80(i: bv8)
    requires i >= 0x80
    ensures Lookup1(i) == Step8(Lookup(i))
  {
  }

  /** Every entry is eight more shifts of the one in the table before. */
  lemma Table1IsShifted(i: bv8)
    ensures Lookup1(i) == Step8(Lookup(i))
  {
    hide *;
    if i < 0x80 {
      Table1Below0x80(i);
    } else {
      Table1From0x80(i);
    }
  }

  function Table2Row0(j: bv4): bv32 {
    match j
    case 0 => 0x00000000 case 1 => 0x01c26a37 case 2 => 0x0384d46e case 3 => 0x0246be59
    case 4 => 0x0709a8dc case 5 => 0x06cbc2eb case 6 => 0x048d7cb2 case 7 => 0x054f1685
    case 8 => 0x0e1351b8 case 9 => 0x0fd13b8f case 10 => 0x0d9785d6 case 11 => 0x0c55efe1
    case 12 => 0x091af964 case 13 => 0x08d89353 case 14 => 0x0a9e2d0a case 15 => 0x0b5c473d
  }

  function Table2Row1(j: bv4): bv32 {
    match j
    case 0 => 0x1c26a370 case 1 => 0x1de4c947 case 2 => 0x1fa2771e case 3 => 0x1e601d29
    case 4 => 0x1b2f0bac case 5 => 0x1aed619b case 6 => 0x18abdfc2 case 7 => 0x1969b5f5
    case 8 => 0x1235f2c8 case 9 => 0x13f798ff case 10 => 0x11b126a6 case 11 => 0x10734c91
    case 12 => 0x153c5a14 case 13 => 0x14fe3023 case 14 => 0x16b88e7a case 15 => 0x177ae44d
  }

  function Table2Row2(j: bv4): bv32 {
    match j
    case 0 => 0x384d46e0 case 1 => 0x398f2cd7 case 2 => 0x3bc9928e case 3 => 0x3a0bf8b9
    case 4 => 0x3f44ee3c case 5 => 0x3e86840b case 6 => 0x3cc03a52 case 7 => 0x3d025065
    case 8 => 0x365e1758 case 9 => 0x379c7d6f case 10 => 0x35dac336 case 11 => 0x3418a901
    case 12 => 0x3157bf84 case 13 => 0x3095d5b3 case 14 => 0x32d36bea case 15 => 0x331101dd
  }

  function Table2Row3(j: bv4): bv32 {
    match j
    case 0 => 0x246be590 case 1 => 0x25a98fa7 case 2 => 0x27ef31fe case 3 => 0x262d5bc9
    case 4 => 0x23624d4c case 5 => 0x22a0277b case 6 => 0x20e69922 case 7 => 0x2124f315
    case 8 => 0x2a78b428 case 9 => 0x2bbade1f case 10 => 0x29fc6046 case 11 => 0x283e0a71
    case 12 => 0x2d711cf4 case 13 => 0x2cb376c3 case 14 => 0x2ef5c89a case 15 => 0x2f37a2ad
  }

  function Table2Row4(j: bv4): bv32 {
    match j
    case 0 => 0x709a8dc0 case 1 => 0x7158e7f7 case 2 => 0x731e59ae case 3 => 0x72dc3399
    case 4 => 0x7793251c case 5 => 0x76514f2b case 6 => 0x7417f172 case 7 => 0x75d59b45
    case 8 => 0x7e89dc78 case 9 => 0x7f4bb64f case 10 => 0x7d0d0816 case 11 => 0x7ccf6221
    case 12 => 0x798074a4 case 13 => 0x78421e93 case 14 => 0x7a04a0ca case 15 => 0x7bc6cafd
  }

  function Table2Row5(j: bv4): bv32 {
    match j
    case 0 => 0x6cbc2eb0 case 1 => 0x6d7e4487 case 2 => 0x6f38fade case 3 => 0x6efa90e9
    case 4 => 0x6bb5866c case 5 => 0x6a77ec5b case 6 => 0x68315202 case 7 => 0x69f33835
    case 8 => 0x62af7f08 case 9 => 0x636d153f case 10 => 0x612bab66 case 11 => 0x60e9c151
    case 12 => 0x65a6d7d4 case 13 => 0x6464bde3 case 14 => 0x662203ba case 15 => 0x67e0698d
  }

  function Table2Row6(j: bv4): bv32 {
    match j
    case 0 => 0x48d7cb20 case 1 => 0x4915a117 case 2 => 0x4b531f4e case 3 => 0x4a917579
    case 4 => 0x4fde63fc case 5 => 0x4e1c09cb case 6 => 0x4c5ab792 case 7 => 0x4d98dda5
    case 8 => 0x46c49a98 case 9 => 0x4706f0af case 10 => 0x45404ef6 case 11 => 0x448224c1
    case 12 => 0x41cd3244 case 13 => 0x400f5873 case 14 => 0x4249e62a case 15 => 0x438b8c1d
  }

  function Table2Row7(j: bv4): bv32 {
    match j
    case 0 => 0x54f16850 case 1 => 0x55330267 case 2 => 0x5775bc3e case 3 => 0x56b7d609
    case 4 => 0x53f8c08c case 5 => 0x523aaabb case 6 => 0x507c14e2 case 7 => 0x51be7ed5
    case 8 => 0x5ae239e8 case 9 => 0x5b2053df case 10 => 0x5966ed86 case 11 => 0x58a487b1
    case 12 => 0x5deb9134 case 13 => 0x5c29fb03 case 14 => 0x5e6f455a case 15 => 0x5fad2f6d
  }

  function Table2Row8(j: bv4): bv32 {
    match j
    case 0 => 0xe1351b80 case 1 => 0xe0f771b7 case 2 => 0xe2b1cfee case 3 => 0xe373a5d9
    case 4 => 0xe63cb35c case 5 => 0xe7fed96b case 6 => 0xe5b86732 case 7 => 0xe47a0d05
    case 8 => 0xef264a38 case 9 => 0xeee4200f case 10 => 0xeca29e56 case 11 => 0xed60f461
    case 12 => 0xe82fe2e4 case 13 => 0xe9ed88d3 case 14 => 0xebab368a case 15 => 0xea695cbd
  }

  function Table2Row9(j: bv4): bv32 {
    match j
    case 0 => 0xfd13b8f0 case 1 => 0xfcd1d2c7 case 2 => 0xfe976c9e case 3 => 0xff5506a9
    case 4 => 0xfa1a102c case 5 => 0xfbd87a1b case 6 => 0xf99ec442 case 7 => 0xf85cae75
    case 8 => 0xf300e948 case 9 => 0xf2c2837f case 10 => 0xf0843d26 case 11 => 0xf1465711
    case 12 => 0xf4094194 case 13 => 0xf5cb2ba3 case 14 => 0xf78d95fa case 15 => 0xf64fffcd
  }

  function Table2RowA(j: bv4): bv32 {
    match j
    case 0 => 0xd9785d60 case 1 => 0xd8ba3757 case 2 => 0xdafc890e case 3 => 0xdb3ee339
    case 4 => 0xde71f5bc case 5 => 0xdfb39f8b case 6 => 0xddf521d2 case 7 => 0xdc374be5
    case 8 => 0xd76b0cd8 case 9 => 0xd6a966ef case 10 => 0xd4efd8b6 case 11 => 0xd52db281
    case 12 => 0xd062a404 case 13 => 0xd1a0ce33 case 14 => 0xd3e6706a case 15 => 0xd2241a5d
  }

  function Table2RowB(j: bv4): bv32 {
    match j
    case 0 => 0xc55efe10 case 1 => 0xc49c9427 case 2 => 0xc6da2a7e case 3 => 0xc7184049
    case 4 => 0xc25756cc case 5 => 0xc3953cfb case 6 => 0xc1d382a2 case 7 => 0xc011e895
    case 8 => 0xcb4dafa8 case 9 => 0xca8fc59f case 10 => 0xc8c97bc6 case 11 => 0xc90b11f1
    case 12 => 0xcc440774 case 13 => 0xcd866d43 case 14 => 0xcfc0d31a case 15 => 0xce02b92d
  }

  function Table2RowC(j: bv4): bv32 {
    match j
    case 0 => 0x91af9640 case 1 => 0x906dfc77 case 2 => 0x922b422e case 3 => 0x93e92819
    case 4 => 0x96a63e9c case 5 => 0x976454ab case 6 => 0x9522eaf2 case 7 => 0x94e080c5
    case 8 => 0x9fbcc7f8 case 9 => 0x9e7eadcf case 10 => 0x9c381396 case 11 => 0x9dfa79a1
    case 12 => 0x98b56f24 case 13 => 0x99770513 case 14 => 0x9b31bb4a case 15 => 0x9af3d17d
  }

  function Table2RowD(j: bv4): bv32 {
    match j
    case 0 => 0x8d893530 case 1 => 0x8c4b5f07 case 2 => 0x8e0de15e case 3 => 0x8fcf8b69
    case 4 => 0x8a809dec case 5 => 0x8b42f7db case 6 => 0x89044982 case 7 => 0x88c623b5
    case 8 => 0x839a6488 case 9 => 0x82580ebf case 10 => 0x801eb0e6 case 11 => 0x81dcdad1
    case 12 => 0x8493cc54 case 13 => 0x8551a663 case 14 => 0x8717183a case 15 => 0x86d5720d
  }

  function Table2RowE(j: bv4): bv32 {
    match j
    case 0 => 0xa9e2d0a0 case 1 => 0xa820ba97 case 2 => 0xaa6604ce case 3 => 0xaba46ef9
    case 4 => 0xaeeb787c case 5 => 0xaf29124b case 6 => 0xad6fac12 case 7 => 0xacadc625
    case 8 => 0xa7f18118 case 9 => 0xa633eb2f case 10 => 0xa4755576 case 11 => 0xa5b73f41
    case 12 => 0xa0f829c4 case 13 => 0xa13a43f3 case 14 => 0xa37cfdaa case 15 => 0xa2be979d
  }

  function Table2RowF(j: bv4): bv32 {
    match j
    case 0 => 0xb5c473d0 case 1 => 0xb40619e7 case 2 => 0xb640a7be case 3 => 0xb782cd89
    case 4 => 0xb2cddb0c case 5 => 0xb30fb13b case 6 => 0xb1490f62 case 7 => 0xb08b6555
    case 8 => 0xbbd72268 case 9 => 0xba15485f case 10 => 0xb853f606 case 11 => 0xb9919c31
    case 12 => 0xbcde8ab4 case 13 => 0xbd1ce083 case 14 => 0xbf5a5eda case 15 => 0xbe9834ed
  }

  /** crc_table[2][i]. */
  function Lookup2(i: bv8): bv32 {
    var lo := (i & 0xF) as bv4;
    match (i >> 4) as bv4
    case 0 => Table2Row0(lo) case 1 => Table2Row1(lo) case 2 => Table2Row2(lo) case 3 => Table2Row3(lo)
    case 4 => Table2Row4(lo) case 5 => Table2Row5(lo) case 6 => Table2Row6(lo) case 7 => Table2Row7(lo)
    case 8 => Table2Row8(lo) case 9 => Table2Row9(lo) case 10 => Table2RowA(lo) case 11 => Table2RowB(lo)
    case 12 => Table2RowC(lo) case 13 => Table2RowD(lo) case 14 => Table2RowE(lo) case 15 => Table2RowF(lo)
  }

  lemma Table2Below0x80(i: bv8)
    requires i < 0x80
    ensures Lookup2(i) == Step8(Lookup1(i))
  {
  }

  lemma Table2From0x80(i: bv8)
    requires i >= 0x80
    ensures Lookup2(i) == Step8(Lookup1(i))
  {
  }

  /** Every entry is eight more shifts of the one in the table before. */
  lemma Table2IsShifted(i: bv8)
    ensures Lookup2(i) == Step8(Lookup1(i))
  {
    hide *;
    if i < 0x80 {
      Table2Below0x80(i);
    } else {
      Table2From0x80(i);
    }
  }

  function Table3Row0(j: bv4): bv32 {
    match j
    case 0 => 0x00000000 case 1 => 0xb8bc6765 case 2 => 0xaa09c88b case 3 => 0x12b5afee
    case 4 => 0x8f629757 case 5 => 0x37def032 case 6 => 0x256b5fdc case 7 => 0x9dd738b9
    case 8 => 0xc5b428ef case 9 => 0x7d084f8a case 10 => 0x6fbde064 case 11 => 0xd7018701
    case 12 => 0x4ad6bfb8 case 13 => 0xf26ad8dd case 14 => 0xe0df7733 case 15 => 0x58631056
  }

  function Table3Row1(j: bv4): bv32 {
    match j
    case 0 => 0x5019579f case 1 => 0xe8a530fa case 2 => 0xfa109f14 case 3 => 0x42acf871
    case 4 => 0xdf7bc0c8 case 5 => 0x67c7a7ad case 6 => 0x75720843 case 7 => 0xcdce6f26
    case 8 => 0x95ad7f70 case 9 => 0x2d111815 case 10 => 0x3fa4b7fb case 11 => 0x8718d09e
    case 12 => 0x1acfe827 case 13 => 0xa2738f42 case 14 => 0xb0c620ac case 15 => 0x087a47c9
  }

  function Table3Row2(j: bv4): bv32 {
    match j
    case 0 => 0xa032af3e case 1 => 0x188ec85b case 2 => 0x0a3b67b5 case 3 => 0xb28700d0
    case 4 => 0x2f503869 case 5 => 0x97ec5f0c case 6 => 0x8559f0e2 case 7 => 0x3de59787
    case 8 => 0x658687d1 case 9 => 0xdd3ae0b4 case 10 => 0xcf8f4f5a case 11 => 0x7733283f
    case 12 => 0xeae41086 case 13 => 0x525877e3 case 14 => 0x40edd80d case 15 => 0xf851bf68
  }

  function Table3Row3(j: bv4): bv32 {
    match j
    case 0 => 0xf02bf8a1 case 1 => 0x48979fc4 case 2 => 0x5a22302a case 3 => 0xe29e574f
    case 4 => 0x7f496ff6 case 5 => 0xc7f50893 case 6 => 0xd540a77d case 7 => 0x6dfcc018
    case 8 => 0x359fd04e case 9 => 0x8d23b72b case 10 => 0x9f9618c5 case 11 => 0x272a7fa0
    case 12 => 0xbafd4719 case 13 => 0x0241207c case 14 => 0x10f48f92 case 15 => 0xa848e8f7
  }

  function Table3Row4(j: bv4): bv32 {
    match j
    case 0 => 0x9b14583d case 1 => 0x23a83f58 case 2 => 0x311d90b6 case 3 => 0x89a1f7d3
    case 4 => 0x1476cf6a case 5 => 0xaccaa80f case 6 => 0xbe7f07e1 case 7 => 0x06c36084
    case 8 => 0x5ea070d2 case 9 => 0xe61c17b7 case 10 => 0xf4a9b859 case 11 => 0x4c15df3c
    case 12 => 0xd1c2e785 case 13 => 0x697e80e0 case 14 => 0x7bcb2f0e case 15 => 0xc377486b
  }

  function Table3Row5(j: bv4): bv32 {
    match j
    case 0 => 0xcb0d0fa2 case 1 => 0x73b168c7 case 2 => 0x6104c729 case 3 => 0xd9b8a04c
    case 4 => 0x446f98f5 case 5 => 0xfcd3ff90 case 6 => 0xee66507e case 7 => 0x56da371b
    case 8 => 0x0eb9274d case 9 => 0xb6054028 case 10 => 0xa4b0efc6 case 11 => 0x1c0c88a3
    case 12 => 0x81dbb01a case 13 => 0x3967d77f case 14 => 0x2bd27891 case 15 => 0x936e1ff4
  }

  function Table3Row6(j: bv4): bv32 {
    match j
    case 0 => 0x3b26f703 case 1 => 0x839a9066 case 2 => 0x912f3f88 case 3 => 0x299358ed
    case 4 => 0xb4446054 case 5 => 0x0cf80731 case 6 => 0x1e4da8df case 7 => 0xa6f1cfba
    case 8 => 0xfe92dfec case 9 => 0x462eb889 case 10 => 0x549b1767 case 11 => 0xec277002
    case 12 => 0x71f048bb case 13 => 0xc94c2fde case 14 => 0xdbf98030 case 15 => 0x6345e755
  }

  function Table3Row7(j: bv4): bv32 {
    match j
    case 0 => 0x6b3fa09c case 1 => 0xd383c7f9 case 2 => 0xc1366817 case 3 => 0x798a0f72
    case 4 => 0xe45d37cb case 5 => 0x5ce150ae case 6 => 0x4e54ff40 case 7 => 0xf6e89825
    case 8 => 0xae8b8873 case 9 => 0x1637ef16 case 10 => 0x048240f8 case 11 => 0xbc3e279d
    case 12 => 0x21e91f24 case 13 => 0x99557841 case 14 => 0x8be0d7af case 15 => 0x335cb0ca
  }

  function Table3Row8(j: bv4): bv32 {
    match j
    case 0 => 0xed59b63b case 1 => 0x55e5d15e case 2 => 0x47507eb0 case 3 => 0xffec19d5
    case 4 => 0x623b216c case 5 => 0xda874609 case 6 => 0xc832e9e7 case 7 => 0x708e8e82
    case 8 => 0x28ed9ed4 case 9 => 0x9051f9b1 case 10 => 0x82e4565f case 11 => 0x3a58313a
    case 12 => 0xa78f0983 case 13 => 0x1f336ee6 case 14 => 0x0d86c108 case 15 => 0xb53aa66d
  }

  function Table3Row9(j: bv4): bv32 {
    match j
    case 0 => 0xbd40e1a4 case 1 => 0x05fc86c1 case 2 => 0x1749292f case 3 => 0xaff54e4a
    case 4 => 0x322276f3 case 5 => 0x8a9e1196 case 6 => 0x982bbe78 case 7 => 0x2097d91d
    case 8 => 0x78f4c94b case 9 => 0xc048ae2e case 10 => 0xd2fd01c0 case 11 => 0x6a4166a5
    case 12 => 0xf7965e1c case 13 => 0x4f2a3979 case 14 => 0x5d9f9697 case 15 => 0xe523f1f2
  }

  function Table3RowA(j: bv4): bv32 {
    match j
    case 0 => 0x4d6b1905 case 1 => 0xf5d77e60 case 2 => 0xe762d18e case 3 => 0x5fdeb6eb
    case 4 => 0xc2098e52 case 5 => 0x7ab5e937 case 6 => 0x680046d9 case 7 => 0xd0bc21bc
    case 8 => 0x88df31ea case 9 => 0x3063568f case 10 => 0x22d6f961 case 11 => 0x9a6a9e04
    case 12 => 0x07bda6bd case 13 => 0xbf01c1d8 case 14 => 0xadb46e36 case 15 => 0x15080953
  }

  function Table3RowB(j: bv4): bv32 {
    match j
    case 0 => 0x1d724e9a case 1 => 0xa5ce29ff case 2 => 0xb77b8611 case 3 => 0x0fc7e174
    case 4 => 0x9210d9cd case 5 => 0x2aacbea8 case 6 => 0x38191146 case 7 => 0x80a57623
    case 8 => 0xd8c66675 case 9 => 0x607a0110 case 10 => 0x72cfaefe case 11 => 0xca73c99b
    case 12 => 0x57a4f122 case 13 => 0xef189647 case 14 => 0xfdad39a9 case 15 => 0x45115ecc
  }

  function Table3RowC(j: bv4): bv32 {
    match j
    case 0 => 0x764dee06 case 1 => 0xcef18963 case 2 => 0xdc44268d case 3 => 0x64f841e8
    case 4 => 0xf92f7951 case 5 => 0x41931e34 case 6 => 0x5326b1da case 7 => 0xeb9ad6bf
    case 8 => 0xb3f9c6e9 case 9 => 0x0b45a18c case 10 => 0x19f00e62 case 11 => 0xa14c6907
    case 12 => 0x3c9b51be case 13 => 0x842736db case 14 => 0x96929935 case 15 => 0x2e2efe50
  }

  function Table3RowD(j: bv4): bv32 {
    match j
    case 0 => 0x2654b999 case 1 => 0x9ee8defc case 2 => 0x8c5d7112 case 3 => 0x34e11677
    case 4 => 0xa9362ece case 5 => 0x118a49ab case 6 => 0x033fe645 case 7 => 0xbb838120
    case 8 => 0xe3e09176 case 9 => 0x5b5cf613 case 10 => 0x49e959fd case 11 => 0xf1553e98
    case 12 => 0x6c820621 case 13 => 0xd43e6144 case 14 => 0xc68bceaa case 15 => 0x7e37a9cf
  }

  function Table3RowE(j: bv4): bv32 {
    match j
    case 0 => 0xd67f4138 case 1 => 0x6ec3265d case 2 => 0x7c7689b3 case 3 => 0xc4caeed6
    case 4 => 0x591dd66f case 5 => 0xe1a1b10a case 6 => 0xf3141ee4 case 7 => 0x4ba87981
    case 8 => 0x13cb69d7 case 9 => 0xab770eb2 case 10 => 0xb9c2a15c case 11 => 0x017ec639
    case 12 => 0x9ca9fe80 case 13 => 0x241599e5 case 14 => 0x36a0360b case 15 => 0x8e1c516e
  }

  function Table3RowF(j: bv4): bv32 {
    match j
    case 0 => 0x866616a7 case 1 => 0x3eda71c2 case 2 => 0x2c6fde2c case 3 => 0x94d3b949
    case 4 => 0x090481f0 case 5 => 0xb1b8e695 case 6 => 0xa30d497b case 7 => 0x1bb12e1e
    case 8 => 0x43d23e48 case 9 => 0xfb6e592d case 10 => 0xe9dbf6c3 case 11 => 0x516791a6
    case 12 => 0xccb0a91f case 13 => 0x740cce7a case 14 => 0x66b96194 case 15 => 0xde0506f1
  }

  /** crc_table[3][i]. */
  function Lookup3(i: bv8): bv32 {
    var lo := (i & 0xF) as bv4;
    match (i >> 4) as bv4
    case 0 => Table3Row0(lo) case 1 => Table3Row1(lo) case 2 => Table3Row2(lo) case 3 => Table3Row3(lo)
    case 4 => Table3Row4(lo) case 5 => Table3Row5(lo) case 6 => Table3Row6(lo) case 7 => Table3Row7(lo)
    case 8 => Table3Row8(lo) case 9 => Table3Row9(lo) case 10 => Table3RowA(lo) case 11 => Table3RowB(lo)
    case 12 => Table3RowC(lo) case 13 => Table3RowD(lo) case 14 => Table3RowE(lo) case 15 => Table3RowF(lo)
  }

  lemma Table3Below0x80(i: bv8)
    requires i < 0x80
    ensures Lookup3(i) == Step8(Lookup2(i))
  {
  }

  lemma Table3From0x80(i: bv8)
    requires i >= 0x80
    ensures Lookup3(i) == Step8(Lookup2(i))
  {
  }

  /** Every entry is eight more shifts of the one in the table before. */
  lemma Table3IsShifted(i: bv8)
    ensures Lookup3(i) == Step8(Lookup2(i))
  {
    hide *;
    if i < 0x80 {
      Table3Below0x80(i);
    } else {
      Table3From0x80(i);
    }
  }

}
