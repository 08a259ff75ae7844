/** AES round primitives on a 16-byte block, and the Equivalent Inverse Cipher for any number of rounds. */
module Aes {
  /** The S-box of SubBytes, Fig. 7 of FIPS 197. The bits of the index are tested from the top. */
  function Sbox(b: bv8): bv8 {
    if b & 0x80 == 0 then
      if b & 0x40 == 0 then
        if b & 0x20 == 0 then
          if b & 0x10 == 0 then
            if b & 0x08 == 0 then
              if b & 0x04 == 0 then
                if b & 2 == 0 then if b & 1 == 0 then 0x63 else 0x7c else if b & 1 == 0 then 0x77 else 0x7b
              else
                if b & 2 == 0 then if b & 1 == 0 then 0xf2 else 0x6b else if b & 1 == 0 then 0x6f else 0xc5
            else
              if b & 0x04 == 0 then
                if b & 2 == 0 then if b & 1 == 0 then 0x30 else 0x01 else if b & 1 == 0 then 0x67 else 0x2b
              else
                if b & 2 == 0 then if b & 1 == 0 then 0xfe else 0xd7 else if b & 1 == 0 then 0xab else 0x76
          else
            if b & 0x08 == 0 then
              if b & 0x04 == 0 then
                if b & 2 == 0 then if b & 1 == 0 then 0xca else 0x82 else if b & 1 == 0 then 0xc9 else 0x7d
              else
                if b & 2 == 0 then if b & 1 == 0 then 0xfa else 0x59 else if b & 1 == 0 then 0x47 else 0xf0
            else
              if b & 0x04 == 0 then
                if b & 2 == 0 then if b & 1 == 0 then 0xad else 0xd4 else if b & 1 == 0 then 0xa2 else 0xaf
              else
                if b & 2 == 0 then if b & 1 == 0 then 0x9c else 0xa4 else if b & 1 == 0 then 0x72 else 0xc0
        else
          if b & 0x10 == 0 then
            if b & 0x08 == 0 then
              if b & 0x04 == 0 then
                if b & 2 == 0 then if b & 1 == 0 then 0xb7 else 0xfd else if b & 1 == 0 then 0x93 else 0x26
              else
                if b & 2 == 0 then if b & 1 == 0 then 0x36 else 0x3f else if b & 1 == 0 then 0xf7 else 0xcc
            else
              if b & 0x04 == 0 then
                if b & 2 == 0 then if b & 1 == 0 then 0x34 else 0xa5 else if b & 1 == 0 then 0xe5 else 0xf1
              else
                if b & 2 == 0 then if b & 1 == 0 then 0x71 else 0xd8 else if b & 1 == 0 then 0x31 else 0x15
          else
            if b & 0x08 == 0 then
              if b & 0x04 == 0 then
                if b & 2 == 0 then if b & 1 == 0 then 0x04 else 0xc7 else if b & 1 == 0 then 0x23 else 0xc3
              else
                if b & 2 == 0 then if b & 1 == 0 then 0x18 else 0x96 else if b & 1 == 0 then 0x05 else 0x9a
            else
              if b & 0x04 == 0 then
                if b & 2 == 0 then if b & 1 == 0 then 0x07 else 0x12 else if b & 1 == 0 then 0x80 else 0xe2
              else
                if b & 2 == 0 then if b & 1 == 0 then 0xeb else 0x27 else if b & 1 == 0 then 0xb2 else 0x75
      else
        if b & 0x20 == 0 then
          if b & 0x10 == 0 then
            if b & 0x08 == 0 then
              if b & 0x04 == 0 then
                if b & 2 == 0 then if b & 1 == 0 then 0x09 else 0x83 else if b & 1 == 0 then 0x2c else 0x1a
              else
                if b & 2 == 0 then if b & 1 == 0 then 0x1b else 0x6e else if b & 1 == 0 then 0x5a else 0xa0
            else
              if b & 0x04 == 0 then
                if b & 2 == 0 then if b & 1 == 0 then 0x52 else 0x3b else if b & 1 == 0 then 0xd6 else 0xb3
              else
                if b & 2 == 0 then if b & 1 == 0 then 0x29 else 0xe3 else if b & 1 == 0 then 0x2f else 0x84
          else
            if b & 0x08 == 0 then
              if b & 0x04 == 0 then
                if b & 2 == 0 then if b & 1 == 0 then 0x53 else 0xd1 else if b & 1 == 0 then 0x00 else 0xed
              else
                if b & 2 == 0 then if b & 1 == 0 then 0x20 else 0xfc else if b & 1 == 0 then 0xb1 else 0x5b
            else
              if b & 0x04 == 0 then
                if b & 2 == 0 then if b & 1 == 0 then 0x6a else 0xcb else if b & 1 == 0 then 0xbe else 0x39
              else
                if b & 2 == 0 then if b & 1 == 0 then 0x4a else 0x4c else if b & 1 == 0 then 0x58 else 0xcf
        else
          if b & 0x10 == 0 then
            if b & 0x08 == 0 then
              if b & 0x04 == 0 then
                if b & 2 == 0 then if b & 1 == 0 then 0xd0 else 0xef else if b & 1 == 0 then 0xaa else 0xfb
              else
                if b & 2 == 0 then if b & 1 == 0 then 0x43 else 0x4d else if b & 1 == 0 then 0x33 else 0x85
            else
              if b & 0x04 == 0 then
                if b & 2 == 0 then if b & 1 == 0 then 0x45 else 0xf9 else if b & 1 == 0 then 0x02 else 0x7f
              else
                if b & 2 == 0 then if b & 1 == 0 then 0x50 else 0x3c else if b & 1 == 0 then 0x9f else 0xa8
          else
            if b & 0x08 == 0 then
              if b & 0x04 == 0 then
                if b & 2 == 0 then if b & 1 == 0 then 0x51 else 0xa3 else if b & 1 == 0 then 0x40 else 0x8f
              else
                if b & 2 == 0 then if b & 1 == 0 then 0x92 else 0x9d else if b & 1 == 0 then 0x38 else 0xf5
            else
              if b & 0x04 == 0 then
                if b & 2 == 0 then if b & 1 == 0 then 0xbc else 0xb6 else if b & 1 == 0 then 0xda else 0x21
              else
                if b & 2 == 0 then if b & 1 == 0 then 0x10 else 0xff else if b & 1 == 0 then 0xf3 else 0xd2
    else
      if b & 0x40 == 0 then
        if b & 0x20 == 0 then
          if b & 0x10 == 0 then
            if b & 0x08 == 0 then
              if b & 0x04 == 0 then
                if b & 2 == 0 then if b & 1 == 0 then 0xcd else 0x0c else if b & 1 == 0 then 0x13 else 0xec
              else
                if b & 2 == 0 then if b & 1 == 0 then 0x5f else 0x97 else if b & 1 == 0 then 0x44 else 0x17
            else
              if b & 0x04 == 0 then
                if b & 2 == 0 then if b & 1 == 0 then 0xc4 else 0xa7 else if b & 1 == 0 then 0x7e else 0x3d
              else
                if b & 2 == 0 then if b & 1 == 0 then 0x64 else 0x5d else if b & 1 == 0 then 0x19 else 0x73
          else
            if b & 0x08 == 0 then
              if b & 0x04 == 0 then
                if b & 2 == 0 then if b & 1 == 0 then 0x60 else 0x81 else if b & 1 == 0 then 0x4f else 0xdc
              else
                if b & 2 == 0 then if b & 1 == 0 then 0x22 else 0x2a else if b & 1 == 0 then 0x90 else 0x88
            else
              if b & 0x04 == 0 then
                if b & 2 == 0 then if b & 1 == 0 then 0x46 else 0xee else if b & 1 == 0 then 0xb8 else 0x14
              else
                if b & 2 == 0 then if b & 1 == 0 then 0xde else 0x5e else if b & 1 == 0 then 0x0b else 0xdb
        else
          if b & 0x10 == 0 then
            if b & 0x08 == 0 then
              if b & 0x04 == 0 then
                if b & 2 == 0 then if b & 1 == 0 then 0xe0 else 0x32 else if b & 1 == 0 then 0x3a else 0x0a
              else
                if b & 2 == 0 then if b & 1 == 0 then 0x49 else 0x06 else if b & 1 == 0 then 0x24 else 0x5c
            else
              if b & 0x04 == 0 then
                if b & 2 == 0 then if b & 1 == 0 then 0xc2 else 0xd3 else if b & 1 == 0 then 0xac else 0x62
              else
                if b & 2 == 0 then if b & 1 == 0 then 0x91 else 0x95 else if b & 1 == 0 then 0xe4 else 0x79
          else
            if b & 0x08 == 0 then
              if b & 0x04 == 0 then
                if b & 2 == 0 then if b & 1 == 0 then 0xe7 else 0xc8 else if b & 1 == 0 then 0x37 else 0x6d
              else
                if b & 2 == 0 then if b & 1 == 0 then 0x8d else 0xd5 else if b & 1 == 0 then 0x4e else 0xa9
            else
              if b & 0x04 == 0 then
                if b & 2 == 0 then if b & 1 == 0 then 0x6c else 0x56 else if b & 1 == 0 then 0xf4 else 0xea
              else
                if b & 2 == 0 then if b & 1 == 0 then 0x65 else 0x7a else if b & 1 == 0 then 0xae else 0x08
      else
        if b & 0x20 == 0 then
          if b & 0x10 == 0 then
            if b & 0x08 == 0 then
              if b & 0x04 == 0 then
                if b & 2 == 0 then if b & 1 == 0 then 0xba else 0x78 else if b & 1 == 0 then 0x25 else 0x2e
              else
                if b & 2 == 0 then if b & 1 == 0 then 0x1c else 0xa6 else if b & 1 == 0 then 0xb4 else 0xc6
            else
              if b & 0x04 == 0 then
                if b & 2 == 0 then if b & 1 == 0 then 0xe8 else 0xdd else if b & 1 == 0 then 0x74 else 0x1f
              else
                if b & 2 == 0 then if b & 1 == 0 then 0x4b else 0xbd else if b & 1 == 0 then 0x8b else 0x8a
          else
            if b & 0x08 == 0 then
              if b & 0x04 == 0 then
                if b & 2 == 0 then if b & 1 == 0 then 0x70 else 0x3e else if b & 1 == 0 then 0xb5 else 0x66
              else
                if b & 2 == 0 then if b & 1 == 0 then 0x48 else 0x03 else if b & 1 == 0 then 0xf6 else 0x0e
            else
              if b & 0x04 == 0 then
                if b & 2 == 0 then if b & 1 == 0 then 0x61 else 0x35 else if b & 1 == 0 then 0x57 else 0xb9
              else
                if b & 2 == 0 then if b & 1 == 0 then 0x86 else 0xc1 else if b & 1 == 0 then 0x1d else 0x9e
        else
          if b & 0x10 == 0 then
            if b & 0x08 == 0 then
              if b & 0x04 == 0 then
                if b & 2 == 0 then if b & 1 == 0 then 0xe1 else 0xf8 else if b & 1 == 0 then 0x98 else 0x11
              else
                if b & 2 == 0 then if b & 1 == 0 then 0x69 else 0xd9 else if b & 1 == 0 then 0x8e else 0x94
            else
              if b & 0x04 == 0 then
                if b & 2 == 0 then if b & 1 == 0 then 0x9b else 0x1e else if b & 1 == 0 then 0x87 else 0xe9
              else
                if b & 2 == 0 then if b & 1 == 0 then 0xce else 0x55 else if b & 1 == 0 then 0x28 else 0xdf
          else
            if b & 0x08 == 0 then
              if b & 0x04 == 0 then
                if b & 2 == 0 then if b & 1 == 0 then 0x8c else 0xa1 else if b & 1 == 0 then 0x89 else 0x0d
              else
                if b & 2 == 0 then if b & 1 == 0 then 0xbf else 0xe6 else if b & 1 == 0 then 0x42 else 0x68
            else
              if b & 0x04 == 0 then
                if b & 2 == 0 then if b & 1 == 0 then 0x41 else 0x99 else if b & 1 == 0 then 0x2d else 0x0f
              else
                if b & 2 == 0 then if b & 1 == 0 then 0xb0 else 0x54 else if b & 1 == 0 then 0xbb else 0x16
  }

  /** The S-box of InvSubBytes, Fig. 14 of FIPS 197. The bits of the index are tested from the top. */
  function InvSbox(b: bv8): bv8 {
    if b & 0x80 == 0 then
      if b & 0x40 == 0 then
        if b & 0x20 == 0 then
          if b & 0x10 == 0 then
            if b & 0x08 == 0 then
              if b & 0x04 == 0 then
                if b & 2 == 0 then if b & 1 == 0 then 0x52 else 0x09 else if b & 1 == 0 then 0x6a else 0xd5
              else
                if b & 2 == 0 then if b & 1 == 0 then 0x30 else 0x36 else if b & 1 == 0 then 0xa5 else 0x38
            else
              if b & 0x04 == 0 then
                if b & 2 == 0 then if b & 1 == 0 then 0xbf else 0x40 else if b & 1 == 0 then 0xa3 else 0x9e
              else
                if b & 2 == 0 then if b & 1 == 0 then 0x81 else 0xf3 else if b & 1 == 0 then 0xd7 else 0xfb
          else
            if b & 0x08 == 0 then
              if b & 0x04 == 0 then
                if b & 2 == 0 then if b & 1 == 0 then 0x7c else 0xe3 else if b & 1 == 0 then 0x39 else 0x82
              else
                if b & 2 == 0 then if b & 1 == 0 then 0x9b else 0x2f else if b & 1 == 0 then 0xff else 0x87
            else
              if b & 0x04 == 0 then
                if b & 2 == 0 then if b & 1 == 0 then 0x34 else 0x8e else if b & 1 == 0 then 0x43 else 0x44
              else
                if b & 2 == 0 then if b & 1 == 0 then 0xc4 else 0xde else if b & 1 == 0 then 0xe9 else 0xcb
        else
          if b & 0x10 == 0 then
            if b & 0x08 == 0 then
              if b & 0x04 == 0 then
                if b & 2 == 0 then if b & 1 == 0 then 0x54 else 0x7b else if b & 1 == 0 then 0x94 else 0x32
              else
                if b & 2 == 0 then if b & 1 == 0 then 0xa6 else 0xc2 else if b & 1 == 0 then 0x23 else 0x3d
            else
              if b & 0x04 == 0 then
                if b & 2 == 0 then if b & 1 == 0 then 0xee else 0x4c else if b & 1 == 0 then 0x95 else 0x0b
              else
                if b & 2 == 0 then if b & 1 == 0 then 0x42 else 0xfa else if b & 1 == 0 then 0xc3 else 0x4e
          else
            if b & 0x08 == 0 then
              if b & 0x04 == 0 then
                if b & 2 == 0 then if b & 1 == 0 then 0x08 else 0x2e else if b & 1 == 0 then 0xa1 else 0x66
              else
                if b & 2 == 0 then if b & 1 == 0 then 0x28 else 0xd9 else if b & 1 == 0 then 0x24 else 0xb2
            else
              if b & 0x04 == 0 then
                if b & 2 == 0 then if b & 1 == 0 then 0x76 else 0x5b else if b & 1 == 0 then 0xa2 else 0x49
              else
                if b & 2 == 0 then if b & 1 == 0 then 0x6d else 0x8b else if b & 1 == 0 then 0xd1 else 0x25
      else
        if b & 0x20 == 0 then
          if b & 0x10 == 0 then
            if b & 0x08 == 0 then
              if b & 0x04 == 0 then
                if b & 2 == 0 then if b & 1 == 0 then 0x72 else 0xf8 else if b & 1 == 0 then 0xf6 else 0x64
              else
                if b & 2 == 0 then if b & 1 == 0 then 0x86 else 0x68 else if b & 1 == 0 then 0x98 else 0x16
            else
              if b & 0x04 == 0 then
                if b & 2 == 0 then if b & 1 == 0 then 0xd4 else 0xa4 else if b & 1 == 0 then 0x5c else 0xcc
              else
                if b & 2 == 0 then if b & 1 == 0 then 0x5d else 0x65 else if b & 1 == 0 then 0xb6 else 0x92
          else
            if b & 0x08 == 0 then
              if b & 0x04 == 0 then
                if b & 2 == 0 then if b & 1 == 0 then 0x6c else 0x70 else if b & 1 == 0 then 0x48 else 0x50
              else
                if b & 2 == 0 then if b & 1 == 0 then 0xfd else 0xed else if b & 1 == 0 then 0xb9 else 0xda
            else
              if b & 0x04 == 0 then
                if b & 2 == 0 then if b & 1 == 0 then 0x5e else 0x15 else if b & 1 == 0 then 0x46 else 0x57
              else
                if b & 2 == 0 then if b & 1 == 0 then 0xa7 else 0x8d else if b & 1 == 0 then 0x9d else 0x84
        else
          if b & 0x10 == 0 then
            if b & 0x08 == 0 then
              if b & 0x04 == 0 then
                if b & 2 == 0 then if b & 1 == 0 then 0x90 else 0xd8 else if b & 1 == 0 then 0xab else 0x00
              else
                if b & 2 == 0 then if b & 1 == 0 then 0x8c else 0xbc else if b & 1 == 0 then 0xd3 else 0x0a
            else
              if b & 0x04 == 0 then
                if b & 2 == 0 then if b & 1 == 0 then 0xf7 else 0xe4 else if b & 1 == 0 then 0x58 else 0x05
              else
                if b & 2 == 0 then if b & 1 == 0 then 0xb8 else 0xb3 else if b & 1 == 0 then 0x45 else 0x06
          else
            if b & 0x08 == 0 then
              if b & 0x04 == 0 then
                if b & 2 == 0 then if b & 1 == 0 then 0xd0 else 0x2c else if b & 1 == 0 then 0x1e else 0x8f
              else
                if b & 2 == 0 then if b & 1 == 0 then 0xca else 0x3f else if b & 1 == 0 then 0x0f else 0x02
            else
              if b & 0x04 == 0 then
                if b & 2 == 0 then if b & 1 == 0 then 0xc1 else 0xaf else if b & 1 == 0 then 0xbd else 0x03
              else
                if b & 2 == 0 then if b & 1 == 0 then 0x01 else 0x13 else if b & 1 == 0 then 0x8a else 0x6b
    else
      if b & 0x40 == 0 then
        if b & 0x20 == 0 then
          if b & 0x10 == 0 then
            if b & 0x08 == 0 then
              if b & 0x04 == 0 then
                if b & 2 == 0 then if b & 1 == 0 then 0x3a else 0x91 else if b & 1 == 0 then 0x11 else 0x41
              else
                if b & 2 == 0 then if b & 1 == 0 then 0x4f else 0x67 else if b & 1 == 0 then 0xdc else 0xea
            else
              if b & 0x04 == 0 then
                if b & 2 == 0 then if b & 1 == 0 then 0x97 else 0xf2 else if b & 1 == 0 then 0xcf else 0xce
              else
                if b & 2 == 0 then if b & 1 == 0 then 0xf0 else 0xb4 else if b & 1 == 0 then 0xe6 else 0x73
          else
            if b & 0x08 == 0 then
              if b & 0x04 == 0 then
                if b & 2 == 0 then if b & 1 == 0 then 0x96 else 0xac else if b & 1 == 0 then 0x74 else 0x22
              else
                if b & 2 == 0 then if b & 1 == 0 then 0xe7 else 0xad else if b & 1 == 0 then 0x35 else 0x85
            else
              if b & 0x04 == 0 then
                if b & 2 == 0 then if b & 1 == 0 then 0xe2 else 0xf9 else if b & 1 == 0 then 0x37 else 0xe8
              else
                if b & 2 == 0 then if b & 1 == 0 then 0x1c else 0x75 else if b & 1 == 0 then 0xdf else 0x6e
        else
          if b & 0x10 == 0 then
            if b & 0x08 == 0 then
              if b & 0x04 == 0 then
                if b & 2 == 0 then if b & 1 == 0 then 0x47 else 0xf1 else if b & 1 == 0 then 0x1a else 0x71
              else
                if b & 2 == 0 then if b & 1 == 0 then 0x1d else 0x29 else if b & 1 == 0 then 0xc5 else 0x89
            else
              if b & 0x04 == 0 then
                if b & 2 == 0 then if b & 1 == 0 then 0x6f else 0xb7 else if b & 1 == 0 then 0x62 else 0x0e
              else
                if b & 2 == 0 then if b & 1 == 0 then 0xaa else 0x18 else if b & 1 == 0 then 0xbe else 0x1b
          else
            if b & 0x08 == 0 then
              if b & 0x04 == 0 then
                if b & 2 == 0 then if b & 1 == 0 then 0xfc else 0x56 else if b & 1 == 0 then 0x3e else 0x4b
              else
                if b & 2 == 0 then if b & 1 == 0 then 0xc6 else 0xd2 else if b & 1 == 0 then 0x79 else 0x20
            else
              if b & 0x04 == 0 then
                if b & 2 == 0 then if b & 1 == 0 then 0x9a else 0xdb else if b & 1 == 0 then 0xc0 else 0xfe
              else
                if b & 2 == 0 then if b & 1 == 0 then 0x78 else 0xcd else if b & 1 == 0 then 0x5a else 0xf4
      else
        if b & 0x20 == 0 then
          if b & 0x10 == 0 then
            if b & 0x08 == 0 then
              if b & 0x04 == 0 then
                if b & 2 == 0 then if b & 1 == 0 then 0x1f else 0xdd else if b & 1 == 0 then 0xa8 else 0x33
              else
                if b & 2 == 0 then if b & 1 == 0 then 0x88 else 0x07 else if b & 1 == 0 then 0xc7 else 0x31
            else
              if b & 0x04 == 0 then
                if b & 2 == 0 then if b & 1 == 0 then 0xb1 else 0x12 else if b & 1 == 0 then 0x10 else 0x59
              else
                if b & 2 == 0 then if b & 1 == 0 then 0x27 else 0x80 else if b & 1 == 0 then 0xec else 0x5f
          else
            if b & 0x08 == 0 then
              if b & 0x04 == 0 then
                if b & 2 == 0 then if b & 1 == 0 then 0x60 else 0x51 else if b & 1 == 0 then 0x7f else 0xa9
              else
                if b & 2 == 0 then if b & 1 == 0 then 0x19 else 0xb5 else if b & 1 == 0 then 0x4a else 0x0d
            else
              if b & 0x04 == 0 then
                if b & 2 == 0 then if b & 1 == 0 then 0x2d else 0xe5 else if b & 1 == 0 then 0x7a else 0x9f
              else
                if b & 2 == 0 then if b & 1 == 0 then 0x93 else 0xc9 else if b & 1 == 0 then 0x9c else 0xef
        else
          if b & 0x10 == 0 then
            if b & 0x08 == 0 then
              if b & 0x04 == 0 then
                if b & 2 == 0 then if b & 1 == 0 then 0xa0 else 0xe0 else if b & 1 == 0 then 0x3b else 0x4d
              else
                if b & 2 == 0 then if b & 1 == 0 then 0xae else 0x2a else if b & 1 == 0 then 0xf5 else 0xb0
            else
              if b & 0x04 == 0 then
                if b & 2 == 0 then if b & 1 == 0 then 0xc8 else 0xeb else if b & 1 == 0 then 0xbb else 0x3c
              else
                if b & 2 == 0 then if b & 1 == 0 then 0x83 else 0x53 else if b & 1 == 0 then 0x99 else 0x61
          else
            if b & 0x08 == 0 then
              if b & 0x04 == 0 then
                if b & 2 == 0 then if b & 1 == 0 then 0x17 else 0x2b else if b & 1 == 0 then 0x04 else 0x7e
              else
                if b & 2 == 0 then if b & 1 == 0 then 0xba else 0x77 else if b & 1 == 0 then 0xd6 else 0x26
            else
              if b & 0x04 == 0 then
                if b & 2 == 0 then if b & 1 == 0 then 0xe1 else 0x69 else if b & 1 == 0 then 0x14 else 0x63
              else
                if b & 2 == 0 then if b & 1 == 0 then 0x55 else 0x21 else if b & 1 == 0 then 0x0c else 0x7d
  }

  lemma SboxInverse(b: bv8)
    ensures InvSbox(Sbox(b)) == b
  {
  }

  // ---- Arithmetic in GF(2^8) ----

  function Add(a: bv8, b: bv8): bv8 { a ^ b }

  function Twice(a: bv8): bv8 { a << 1 }

  predicate TopBitSet(a: bv8) { a & 0x80 != 0 }

  /** Multiply by x, reduced by the AES polynomial 0x11b. */
  function Xtime(a: bv8): bv8 {
    if TopBitSet(a) then Add(Twice(a), 0x1b) else Twice(a)
  }

  lemma AddLaws(a: bv8, b: bv8, k: bv8)
    ensures Add(a, b) == Add(b, a) && Add(a, 0) == a && Add(0, a) == a && Add(a, a) == 0
    ensures Add(Add(a, b), k) == Add(a, Add(b, k))
  {
    XorLaws(a, b, k);
    assert Add(a ^ b, k) == Add(a, b ^ k);
  }

  lemma AddCancels(a: bv8, b: bv8, k: bv8)
    ensures Add(Add(a, k), k) == a
    ensures Add(Add(a, k), Add(b, k)) == Add(a, b)
    ensures Add(Add(a, k), b) == Add(Add(a, b), k)
  {
    hide Add;
    AddLaws(a, k, k);
    AddLaws(a, k, Add(b, k));
    AddLaws(k, b, k);
    AddLaws(b, k, k);
    AddLaws(a, k, b);
    AddLaws(a, b, k);
    AddLaws(k, Add(b, k), 0);
    AddLaws(k, k, b);
    AddLaws(k, 0, 0);
    AddLaws(a, 0, 0);
    AddLaws(b, 0, 0);
  }

  lemma XorLaws(a: bv8, b: bv8, k: bv8)
    ensures a ^ b == b ^ a && a ^ 0 == a && 0 ^ a == a && a ^ a == 0
    ensures (a ^ b) ^ k == a ^ (b ^ k)
  {
  }

  lemma AddPairs(a: bv8, b: bv8, c: bv8, d: bv8)
    ensures Add(Add(a, b), Add(c, d)) == Add(Add(a, c), Add(b, d))
  {
    XorPairs(a, b, c, d);
    assert Add(a ^ b, c ^ d) == Add(a ^ c, b ^ d);
  }

  lemma XorPairs(a: bv8, b: bv8, c: bv8, d: bv8)
    ensures (a ^ b) ^ (c ^ d) == (a ^ c) ^ (b ^ d)
  {
  }

  lemma ShiftOfXor(a: bv8, c: bv8)
    ensures (a ^ c) << 1 == (a << 1) ^ (c << 1)
    ensures ((a ^ c) & 0x80 != 0) == ((a & 0x80 != 0) != (c & 0x80 != 0))
  {
  }

  lemma TwiceLinear(a: bv8, c: bv8)
    ensures Twice(Add(a, c)) == Add(Twice(a), Twice(c))
    ensures TopBitSet(Add(a, c)) == (TopBitSet(a) != TopBitSet(c))
  {
    ShiftOfXor(a, c);
  }

  lemma XtimeLinear(a: bv8, c: bv8)
    ensures Xtime(Add(a, c)) == Add(Xtime(a), Xtime(c))
  {
    hide Add;
    hide Twice;
    hide TopBitSet;
    TwiceLinear(a, c);
    AddCancels(Twice(a), Twice(c), 0x1b);
    AddLaws(Twice(a), Twice(c), 0x1b);
  }

  predicate Odd(b: bv8) { b & 1 != 0 }

  function Half(b: bv8): (h: bv8)
    ensures b == 0 <==> h == b
    ensures b != 0 ==> h < b
  {
    b >> 1
  }

  /** The product of two polynomials, by Horner's rule on the second. */
  function Product(a: bv8, b: bv8): bv8
    decreases b
  {
    if b == 0 then 0 else Add(if Odd(b) then a else 0, Xtime(Product(a, Half(b))))
  }

  lemma XtimeOfZero()
    ensures Xtime(0) == 0
  {
  }

  lemma {:induction false} ProductOfXtime(a: bv8, b: bv8)
    ensures Product(Xtime(a), b) == Xtime(Product(a, b))
    decreases b
  {
    hide Add;
    hide Xtime;
    XtimeOfZero();
    if b != 0 {
      ProductOfXtime(a, Half(b));
      XtimeLinear(if Odd(b) then a else 0, Xtime(Product(a, Half(b))));
    }
  }

  lemma {:induction false} ProductLinear(a: bv8, c: bv8, b: bv8)
    ensures Product(Add(a, c), b) == Add(Product(a, b), Product(c, b))
    decreases b
  {
    hide Add;
    hide Xtime;
    AddLaws(0, 0, 0);
    if b != 0 {
      var p, q := Product(a, Half(b)), Product(c, Half(b));
      ProductLinear(a, c, Half(b));
      XtimeLinear(p, q);
      AddPairs(a, c, Xtime(p), Xtime(q));
      AddPairs(0, 0, Xtime(p), Xtime(q));
    }
  }

  function Halved(b: bv8, times: nat): bv8 {
    if times == 0 then b else Half(Halved(b, times - 1))
  }

  lemma HalvedAway(b: bv8)
    ensures Halved(b, 8) == 0
  {
    assert Halved(b, 1) == b >> 1;
    assert Halved(b, 2) == b >> 2;
    assert Halved(b, 3) == b >> 3;
    assert Halved(b, 4) == b >> 4;
    assert Halved(b, 5) == b >> 5;
    assert Halved(b, 6) == b >> 6;
    assert Halved(b, 7) == b >> 7;
  }

  /** The shift-and-add loop computes the polynomial product. */
  method Gmul(x: bv8, y: bv8) returns (p: bv8)
    ensures p == Product(x, y)
  {
    hide Add;
    hide Xtime;
    p := 0;
    var a, b := x, y;
    AddLaws(Product(x, y), 0, 0);
    for i := 0 to 8
      invariant b == Halved(y, i)
      invariant Product(x, y) == Add(p, Product(a, b))
    {
      GmulStep(p, a, b);
      if Odd(b) {
        p := Add(p, a);
      }
      a := Xtime(a);
      b := Half(b);
    }
    HalvedAway(y);
    AddLaws(p, 0, 0);
  }

  lemma GmulStep(p: bv8, a: bv8, b: bv8)
    ensures Add(p, Product(a, b)) == Add(if Odd(b) then Add(p, a) else p, Product(Xtime(a), Half(b)))
  {
    hide Add;
    hide Xtime;
    ProductOfXtime(a, Half(b));
    AddLaws(p, a, Xtime(Product(a, Half(b))));
    AddLaws(Xtime(Product(a, Half(b))), p, 0);
    XtimeOfZero();
    ShiftsToZero(b);
  }

  lemma ShiftsToZero(b: bv8)
    ensures b == 0 ==> Half(b) == 0
  {
  }

  // ---- One column ----

  function Sum4(a: bv8, b: bv8, c: bv8, d: bv8): bv8 { Add(Add(Add(a, b), c), d) }

  function Triple(a: bv8): bv8 { Add(Xtime(a), a) }

  /** Byte `r` of a column after MixColumns. */
  function MixByte(r: nat, s0: bv8, s1: bv8, s2: bv8, s3: bv8): bv8
    requires r < 4
  {
    match r
    case 0 => Sum4(Xtime(s0), Triple(s1), s2, s3)
    case 1 => Sum4(s0, Xtime(s1), Triple(s2), s3)
    case 2 => Sum4(s0, s1, Xtime(s2), Triple(s3))
    case 3 => Sum4(Triple(s0), s1, s2, Xtime(s3))
  }

  /** Row `r` of the matrix of InvMixColumns. */
  function InvRow(r: nat): (bv8, bv8, bv8, bv8)
    requires r < 4
  {
    match r
    case 0 => (14, 11, 13, 9)
    case 1 => (9, 14, 11, 13)
    case 2 => (13, 9, 14, 11)
    case 3 => (11, 13, 9, 14)
  }

  /** Byte `r` of a column after InvMixColumns. */
  function InvMixByte(r: nat, s0: bv8, s1: bv8, s2: bv8, s3: bv8): bv8
    requires r < 4
  {
    var (c0, c1, c2, c3) := InvRow(r);
    Sum4(Product(s0, c0), Product(s1, c1), Product(s2, c2), Product(s3, c3))
  }

  lemma Sum4Pairs(a: bv8, b: bv8, c: bv8, d: bv8)
    ensures Sum4(a, b, c, d) == Add(Add(a, b), Add(c, d))
    ensures Sum4(a, b, c, d) == Sum4(d, a, b, c)
  {
    hide Add;
    AddLaws(Add(a, b), c, d);
    AddLaws(Add(Add(a, b), c), d, 0);
    AddLaws(d, Add(a, b), c);
    AddLaws(d, a, b);
  }

  lemma AddSums(a: bv8, b: bv8, c: bv8, d: bv8, a': bv8, b': bv8, c': bv8, d': bv8)
    ensures Add(Sum4(a, b, c, d), Sum4(a', b', c', d')) == Sum4(Add(a, a'), Add(b, b'), Add(c, c'), Add(d, d'))
  {
    hide Add;
    hide Sum4;
    Sum4Pairs(a, b, c, d);
    Sum4Pairs(a', b', c', d');
    Sum4Pairs(Add(a, a'), Add(b, b'), Add(c, c'), Add(d, d'));
    AddPairs(Add(a, b), Add(c, d), Add(a', b'), Add(c', d'));
    AddPairs(a, b, a', b');
    AddPairs(c, d, c', d');
  }

  lemma Transpose(a0: bv8, b0: bv8, c0: bv8, d0: bv8,
                  a1: bv8, b1: bv8, c1: bv8, d1: bv8,
                  a2: bv8, b2: bv8, c2: bv8, d2: bv8,
                  a3: bv8, b3: bv8, c3: bv8, d3: bv8)
    ensures Sum4(Sum4(a0, b0, c0, d0), Sum4(a1, b1, c1, d1),
                 Sum4(a2, b2, c2, d2), Sum4(a3, b3, c3, d3))
         == Sum4(Sum4(a0, a1, a2, a3), Sum4(b0, b1, b2, b3),
                 Sum4(c0, c1, c2, c3), Sum4(d0, d1, d2, d3))
  {
    hide Add;
    hide Sum4;
    Sum4Pairs(Sum4(a0, b0, c0, d0), Sum4(a1, b1, c1, d1),
              Sum4(a2, b2, c2, d2), Sum4(a3, b3, c3, d3));
    AddSums(a0, b0, c0, d0, a1, b1, c1, d1);
    AddSums(a2, b2, c2, d2, a3, b3, c3, d3);
    AddSums(Add(a0, a1), Add(b0, b1), Add(c0, c1), Add(d0, d1), Add(a2, a3), Add(b2, b3), Add(c2, c3), Add(d2, d3));
    Sum4Pairs(a0, a1, a2, a3);
    Sum4Pairs(b0, b1, b2, b3);
    Sum4Pairs(c0, c1, c2, c3);
    Sum4Pairs(d0, d1, d2, d3);
  }

  lemma ProductOfSum4(a: bv8, b: bv8, c: bv8, d: bv8, k: bv8)
    ensures Product(Sum4(a, b, c, d), k) == Sum4(Product(a, k), Product(b, k), Product(c, k), Product(d, k))
  {
    hide Add;
    hide Product;
    ProductLinear(a, b, k);
    ProductLinear(Add(a, b), c, k);
    ProductLinear(Add(Add(a, b), c), d, k);
  }

  lemma HalvesOfXor(b: bv8, c: bv8)
    ensures (b ^ c) >> 1 == (b >> 1) ^ (c >> 1)
    ensures ((b ^ c) & 1 != 0) == ((b & 1 != 0) != (c & 1 != 0))
  {
  }

  lemma HalfLinear(b: bv8, c: bv8)
    ensures Half(Add(b, c)) == Add(Half(b), Half(c))
    ensures Odd(Add(b, c)) == (Odd(b) != Odd(c))
  {
    HalvesOfXor(b, c);
  }

  /** The product distributes over a sum of multipliers. */
  lemma {:induction false} ProductOfMultipliers(a: bv8, b: bv8, c: bv8)
    ensures Product(a, Add(b, c)) == Add(Product(a, b), Product(a, c))
    decreases b, c
  {
    hide Add;
    hide Xtime;
    hide Half;
    hide Odd;
    hide Product;
    AddLaws(b, c, 0);
    if b == 0 || c == 0 {
      AddLaws(Product(a, b), Product(a, c), 0);
      ProductByZero(a);
      AddLaws(c, 0, 0);
      AddLaws(Product(a, c), 0, 0);
    } else {
      ProductOfMultipliers(a, Half(b), Half(c));
      MultipliersStep(a, b, c);
    }
  }

  lemma ProductByZero(a: bv8)
    ensures Product(a, 0) == 0
  {
  }

  lemma MultipliersStep(a: bv8, b: bv8, c: bv8)
    requires Product(a, Add(Half(b), Half(c))) == Add(Product(a, Half(b)), Product(a, Half(c)))
    ensures Product(a, Add(b, c)) == Add(Product(a, b), Product(a, c))
  {
    hide Add;
    hide Xtime;
    hide Half;
    hide Odd;
    hide Product;
    var p, q := Product(a, Half(b)), Product(a, Half(c));
    ProductStep(a, b);
    ProductStep(a, c);
    ProductStep(a, Add(b, c));
    HalfLinear(b, c);
    XtimeLinear(p, q);
    AddPairs(if Odd(b) then a else 0, if Odd(c) then a else 0, Xtime(p), Xtime(q));
    AddLaws(a, 0, 0);
    AddLaws(0, a, 0);
    AddLaws(0, 0, 0);
  }

  lemma ProductStep(a: bv8, b: bv8)
    ensures Product(a, b) == Add(if Odd(b) then a else 0, Xtime(Product(a, Half(b))))
  {
    hide Add;
    hide Xtime;
    AddLaws(0, 0, 0);
    XtimeOfZero();
  }

  lemma ProductByOne(a: bv8)
    ensures Product(a, 1) == a
  {
    hide Add;
    AddLaws(a, 0, 0);
    XtimeOfZero();
  }

  /** Multiplying by x moves into the multiplier. */
  lemma XtimeIntoMultiplier(a: bv8, k: bv8, k2: bv8)
    requires !Odd(k2) && Half(k2) == k
    ensures Product(Xtime(a), k) == Product(a, k2)
  {
    hide Add;
    hide Xtime;
    ProductOfXtime(a, k);
    ProductStep(a, k2);
    AddLaws(Xtime(Product(a, k)), 0, 0);
  }

  /** A byte met by `x` times Xtime, `k`, `l` and `t` times Triple meets one multiplier in all. */
  lemma Contribution(s: bv8, x: bv8, k: bv8, l: bv8, t: bv8, shifted: bv8)
    requires !Odd(shifted) && Half(shifted) == Add(x, t)
    ensures Sum4(Product(Xtime(s), x), Product(s, k), Product(s, l), Product(Triple(s), t))
         == Product(s, Add(shifted, Add(Add(k, l), t)))
  {
    hide Add;
    hide Product;
    hide Xtime;
    hide Half;
    hide Odd;
    var X := Xtime(s);
    ProductLinear(X, s, t);
    ProductOfMultipliers(X, x, t);
    XtimeIntoMultiplier(s, Add(x, t), shifted);
    ProductOfMultipliers(s, k, l);
    ProductOfMultipliers(s, Add(k, l), t);
    ProductOfMultipliers(s, shifted, Add(Add(k, l), t));
    Regroup(Product(X, x), Product(s, k), Product(s, l), Product(X, t), Product(s, t));
  }

  lemma Regroup(p: bv8, q: bv8, r: bv8, m: bv8, n: bv8)
    ensures Sum4(p, q, r, Add(m, n)) == Add(Add(p, m), Add(Add(q, r), n))
  {
    hide Add;
    Sum4Pairs(p, q, r, Add(m, n));
    AddLaws(p, q, r);
    AddPairs(p, Add(q, r), m, n);
  }

  /** What coefficients applied to a mixed column make of the byte that enters row `0` of it as Xtime. */
  function Gathered(s: bv8, c0: bv8, c1: bv8, c2: bv8, c3: bv8): bv8 {
    Sum4(Product(Xtime(s), c0), Product(s, c1), Product(s, c2), Product(Triple(s), c3))
  }

  lemma Contributions(s: bv8)
    ensures Gathered(s, 14, 11, 13, 9) == s && Gathered(s, 11, 13, 9, 14) == 0
    ensures Gathered(s, 13, 9, 14, 11) == 0 && Gathered(s, 9, 14, 11, 13) == 0
  {
    hide Product;
    hide Xtime;
    hide Sum4;
    hide Triple;
    Contribution(s, 14, 11, 13, 9, 14);
    Contribution(s, 11, 13, 9, 14, 10);
    Contribution(s, 13, 9, 14, 11, 12);
    Contribution(s, 9, 14, 11, 13, 8);
    ProductByOne(s);
    ProductByZero(s);
  }

  lemma Sum4Rotations(a: bv8, b: bv8, c: bv8, d: bv8)
    ensures Sum4(a, b, c, d) == Sum4(d, a, b, c) == Sum4(c, d, a, b) == Sum4(b, c, d, a)
  {
    hide Sum4;
    Sum4Pairs(a, b, c, d);
    Sum4Pairs(d, a, b, c);
    Sum4Pairs(c, d, a, b);
  }

  lemma GatherProducts(c0: bv8, c1: bv8, c2: bv8, c3: bv8, s0: bv8, s1: bv8, s2: bv8, s3: bv8,
                       x0: bv8, x1: bv8, x2: bv8, x3: bv8, t0: bv8, t1: bv8, t2: bv8, t3: bv8)
    ensures Sum4(Product(Sum4(x0, t1, s2, s3), c0), Product(Sum4(s0, x1, t2, s3), c1),
                 Product(Sum4(s0, s1, x2, t3), c2), Product(Sum4(t0, s1, s2, x3), c3))
         == Sum4(Sum4(Product(x0, c0), Product(s0, c1), Product(s0, c2), Product(t0, c3)),
                 Sum4(Product(t1, c0), Product(x1, c1), Product(s1, c2), Product(s1, c3)),
                 Sum4(Product(s2, c0), Product(t2, c1), Product(x2, c2), Product(s2, c3)),
                 Sum4(Product(s3, c0), Product(s3, c1), Product(t3, c2), Product(x3, c3)))
  {
    hide Product;
    hide Sum4;
    ProductOfSum4(x0, t1, s2, s3, c0);
    ProductOfSum4(s0, x1, t2, s3, c1);
    ProductOfSum4(s0, s1, x2, t3, c2);
    ProductOfSum4(t0, s1, s2, x3, c3);
    Transpose(Product(x0, c0), Product(t1, c0), Product(s2, c0), Product(s3, c0),
              Product(s0, c1), Product(x1, c1), Product(t2, c1), Product(s3, c1),
              Product(s0, c2), Product(s1, c2), Product(x2, c2), Product(t3, c2),
              Product(t0, c3), Product(s1, c3), Product(s2, c3), Product(x3, c3));
  }

  /** Four coefficients applied to a mixed column, gathered by the byte each part comes from. */
  lemma GatherColumn(c0: bv8, c1: bv8, c2: bv8, c3: bv8, s0: bv8, s1: bv8, s2: bv8, s3: bv8)
    ensures Sum4(Product(MixByte(0, s0, s1, s2, s3), c0), Product(MixByte(1, s0, s1, s2, s3), c1),
                 Product(MixByte(2, s0, s1, s2, s3), c2), Product(MixByte(3, s0, s1, s2, s3), c3))
         == Sum4(Gathered(s0, c0, c1, c2, c3), Gathered(s1, c1, c2, c3, c0),
                 Gathered(s2, c2, c3, c0, c1), Gathered(s3, c3, c0, c1, c2))
  {
    hide Product;
    hide Xtime;
    hide Sum4;
    hide Triple;
    GatherProducts(c0, c1, c2, c3, s0, s1, s2, s3,
                   Xtime(s0), Xtime(s1), Xtime(s2), Xtime(s3), Triple(s0), Triple(s1), Triple(s2), Triple(s3));
    Sum4Rotations(Product(Xtime(s1), c1), Product(s1, c2), Product(s1, c3), Product(Triple(s1), c0));
    Sum4Rotations(Product(Xtime(s2), c2), Product(s2, c3), Product(s2, c0), Product(Triple(s2), c1));
    Sum4Rotations(Product(Xtime(s3), c3), Product(s3, c0), Product(s3, c1), Product(Triple(s3), c2));
  }

  lemma OnlyOne(a: bv8)
    ensures Sum4(a, 0, 0, 0) == a && Sum4(0, a, 0, 0) == a && Sum4(0, 0, a, 0) == a && Sum4(0, 0, 0, a) == a
  {
    hide Add;
    AddLaws(a, 0, 0);
    AddLaws(0, 0, 0);
  }

  /** InvMixColumns undoes MixColumns on a column. */
  lemma ColumnRestored(r: nat, s0: bv8, s1: bv8, s2: bv8, s3: bv8)
    requires r < 4
    ensures InvMixByte(r, MixByte(0, s0, s1, s2, s3), MixByte(1, s0, s1, s2, s3),
                       MixByte(2, s0, s1, s2, s3), MixByte(3, s0, s1, s2, s3))
         == match r case 0 => s0 case 1 => s1 case 2 => s2 case 3 => s3
  {
    hide Product;
    hide Gathered;
    hide Sum4;
    hide MixByte;
    Contributions(s0);
    Contributions(s1);
    Contributions(s2);
    Contributions(s3);
    match r {
      case 0 =>
        GatherColumn(14, 11, 13, 9, s0, s1, s2, s3);
        OnlyOne(s0);
      case 1 =>
        GatherColumn(9, 14, 11, 13, s0, s1, s2, s3);
        OnlyOne(s1);
      case 2 =>
        GatherColumn(13, 9, 14, 11, s0, s1, s2, s3);
        OnlyOne(s2);
      case 3 =>
        GatherColumn(11, 13, 9, 14, s0, s1, s2, s3);
        OnlyOne(s3);
    }
  }

  lemma InvMixByteLinear(r: nat, a0: bv8, a1: bv8, a2: bv8, a3: bv8, b0: bv8, b1: bv8, b2: bv8, b3: bv8)
    requires r < 4
    ensures InvMixByte(r, Add(a0, b0), Add(a1, b1), Add(a2, b2), Add(a3, b3))
         == Add(InvMixByte(r, a0, a1, a2, a3), InvMixByte(r, b0, b1, b2, b3))
  {
    hide Product;
    hide Add;
    hide Sum4;
    var (c0, c1, c2, c3) := InvRow(r);
    ProductLinear(a0, b0, c0);
    ProductLinear(a1, b1, c1);
    ProductLinear(a2, b2, c2);
    ProductLinear(a3, b3, c3);
    AddSums(Product(a0, c0), Product(a1, c1), Product(a2, c2), Product(a3, c3),
            Product(b0, c0), Product(b1, c1), Product(b2, c2), Product(b3, c3));
  }

  // ---- The substitution box ----

  /** One step of Horner's rule, at the bit of the multiplier that `mask` selects. */
  function Horner(a: bv8, b: bv8, mask: bv8, p: bv8): bv8 {
    Add(if b & mask != 0 then a else 0, Xtime(p))
  }

  function Unrolled(a: bv8, b: bv8): bv8 {
    Horner(a, b, 1, Horner(a, b, 2, Horner(a, b, 4, Horner(a, b, 8,
    Horner(a, b, 16, Horner(a, b, 32, Horner(a, b, 64, Horner(a, b, 128, 0))))))))
  }

  /** The affine map of section 5.1.1 of FIPS 197: each bit is the sum of five bits and a bit of 0x63. */
  function Affine(x: bv8): bv8 {
    x ^ ((x << 1) | (x >> 7)) ^ ((x << 2) | (x >> 6)) ^ ((x << 3) | (x >> 5)) ^ ((x << 4) | (x >> 4)) ^ 0x63
  }

  function InvAffine(y: bv8): bv8 {
    ((y << 1) | (y >> 7)) ^ ((y << 3) | (y >> 5)) ^ ((y << 6) | (y >> 2)) ^ 0x05
  }

  lemma AffineUndone(y: bv8)
    ensures Affine(InvAffine(y)) == y
  {
  }

  /** `x` is the multiplicative inverse of `b`, and zero stands for its own. */
  predicate Inverts(b: bv8, x: bv8) { if b == 0 then x == 0 else Product(b, x) == 1 }

  predicate UnrolledInverts(b: bv8, x: bv8) { if b == 0 then x == 0 else Unrolled(b, x) == 1 }

  lemma InvertsLowHalf(b: bv8)
    requires b & 0x80 == 0
    ensures UnrolledInverts(b, InvAffine(Sbox(b)))
  {
  }

  lemma InvertsHighHalf(b: bv8)
    requires b & 0x80 != 0
    ensures UnrolledInverts(b, InvAffine(Sbox(b)))
  {
  }

  lemma HornerAt(a: bv8, b: bv8, c: bv8, mask: bv8)
    requires Odd(c) <==> b & mask != 0
    ensures Product(a, c) == Horner(a, b, mask, Product(a, Half(c)))
  {
    hide Product;
    ProductStep(a, c);
  }

  /** Halving `b` brings each of its bits down in turn, and nothing is left after eight. */
  lemma BitsOfHalves(b: bv8)
    ensures Odd(b) <==> b & 1 != 0
    ensures Odd(b >> 1) <==> b & 2 != 0
    ensures Odd(b >> 2) <==> b & 4 != 0
    ensures Odd(b >> 3) <==> b & 8 != 0
    ensures Odd(b >> 4) <==> b & 16 != 0
    ensures Odd(b >> 5) <==> b & 32 != 0
    ensures Odd(b >> 6) <==> b & 64 != 0
    ensures Odd(b >> 7) <==> b & 128 != 0
  {
  }

  lemma HalvesOf(b: bv8)
    ensures Half(b) == b >> 1 && Half(b >> 1) == b >> 2 && Half(b >> 2) == b >> 3 && Half(b >> 3) == b >> 4
    ensures Half(b >> 4) == b >> 5 && Half(b >> 5) == b >> 6 && Half(b >> 6) == b >> 7 && Half(b >> 7) == 0
  {
  }

  lemma ProductUnrolled(a: bv8, b: bv8)
    ensures Product(a, b) == Unrolled(a, b)
  {
    hide Product;
    hide Odd;
    hide Half;
    hide Horner;
    BitsOfHalves(b);
    HalvesOf(b);
    HornerAt(a, b, b, 1);
    HornerAt(a, b, b >> 1, 2);
    HornerAt(a, b, b >> 2, 4);
    HornerAt(a, b, b >> 3, 8);
    HornerAt(a, b, b >> 4, 16);
    HornerAt(a, b, b >> 5, 32);
    HornerAt(a, b, b >> 6, 64);
    HornerAt(a, b, b >> 7, 128);
    ProductByZero(a);
  }

  /** Theorem: every entry of the table is the affine map of the multiplicative inverse. */
  lemma SboxIsAffineInverse(b: bv8)
    ensures exists x: bv8 :: Inverts(b, x) && Sbox(b) == Affine(x)
  {
    hide Sbox;
    hide Affine;
    hide InvAffine;
    hide Product;
    hide Unrolled;
    var x := InvAffine(Sbox(b));
    AffineUndone(Sbox(b));
    if b & 0x80 == 0 {
      InvertsLowHalf(b);
    } else {
      InvertsHighHalf(b);
    }
    ProductUnrolled(b, x);
    assert Inverts(b, x);
  }

  // ---- Blocks ----

  /** The state: byte 0 is bits 7:0 of the register, byte 15 bits 127:120. */
  type Block = s: seq<bv8> | |s| == 16 witness seq(16, i => 0)

  const SHIFT_ROWS: seq<nat> := [0, 5, 10, 15, 4, 9, 14, 3, 8, 13, 2, 7, 12, 1, 6, 11]
  const INV_SHIFT_ROWS: seq<nat> := [0, 13, 10, 7, 4, 1, 14, 11, 8, 5, 2, 15, 12, 9, 6, 3]

  lemma RowTables()
    ensures |SHIFT_ROWS| == |INV_SHIFT_ROWS| == 16
    ensures forall i | 0 <= i < 16 :: SHIFT_ROWS[i] < 16 && INV_SHIFT_ROWS[i] < 16 && SHIFT_ROWS[INV_SHIFT_ROWS[i]] == i
  {
  }

  function SubBytes(s: Block): Block { seq(16, i requires 0 <= i < 16 => Sbox(s[i])) }

  function InvSubBytes(s: Block): Block { seq(16, i requires 0 <= i < 16 => InvSbox(s[i])) }

  function ShiftRows(s: Block): Block {
    RowTables();
    seq(16, i requires 0 <= i < 16 => s[SHIFT_ROWS[i]])
  }

  function InvShiftRows(s: Block): Block {
    RowTables();
    seq(16, i requires 0 <= i < 16 => s[INV_SHIFT_ROWS[i]])
  }

  function MixAt(s: Block, i: nat): bv8
    requires i < 16
  {
    var b := i / 4 * 4;
    MixByte(i % 4, s[b], s[b + 1], s[b + 2], s[b + 3])
  }

  function InvMixAt(s: Block, i: nat): bv8
    requires i < 16
  {
    var b := i / 4 * 4;
    InvMixByte(i % 4, s[b], s[b + 1], s[b + 2], s[b + 3])
  }

  function MixColumns(s: Block): Block { seq(16, i requires 0 <= i < 16 => MixAt(s, i)) }

  function InvMixColumns(s: Block): Block { seq(16, i requires 0 <= i < 16 => InvMixAt(s, i)) }

  function Xor(a: Block, b: Block): Block { seq(16, i requires 0 <= i < 16 => Add(a[i], b[i])) }

  // ---- The loops that fill a block ----

  method ComputeSubBytes(s: Block) returns (o: Block)
    ensures o == SubBytes(s)
  {
    hide Sbox;
    var a := new bv8[16];
    for i := 0 to 16
      invariant forall k | 0 <= k < i :: a[k] == Sbox(s[k])
    {
      a[i] := Sbox(s[i]);
    }
    o := a[..];
  }

  method ComputeInvSubBytes(s: Block) returns (o: Block)
    ensures o == InvSubBytes(s)
  {
    hide InvSbox;
    var a := new bv8[16];
    for i := 0 to 16
      invariant forall k | 0 <= k < i :: a[k] == InvSbox(s[k])
    {
      a[i] := InvSbox(s[i]);
    }
    o := a[..];
  }

  method ComputeShiftRows(s: Block, table: seq<nat>) returns (o: Block)
    requires table == SHIFT_ROWS || table == INV_SHIFT_ROWS
    ensures o == if table == SHIFT_ROWS then ShiftRows(s) else InvShiftRows(s)
  {
    RowTables();
    var a := new bv8[16];
    for i := 0 to 16
      invariant forall k | 0 <= k < i :: a[k] == s[table[k]]
    {
      a[i] := s[table[i]];
    }
    o := a[..];
  }

  method ComputeMixColumns(s: Block) returns (o: Block)
    ensures o == MixColumns(s)
  {
    hide MixByte;
    hide MixAt;
    var a := new bv8[16];
    for c := 0 to 4
      invariant forall k | 0 <= k < 4 * c :: a[k] == MixAt(s, k)
    {
      var b := c * 4;
      var s0, s1, s2, s3 := s[b], s[b + 1], s[b + 2], s[b + 3];
      MixedColumn(s, c);
      a[b] := MixByte(0, s0, s1, s2, s3);
      a[b + 1] := MixByte(1, s0, s1, s2, s3);
      a[b + 2] := MixByte(2, s0, s1, s2, s3);
      a[b + 3] := MixByte(3, s0, s1, s2, s3);
    }
    o := a[..];
  }

  lemma MixedColumn(s: Block, c: nat)
    requires c < 4
    ensures var b := 4 * c; var s0, s1, s2, s3 := s[b], s[b + 1], s[b + 2], s[b + 3];
            && MixAt(s, b) == MixByte(0, s0, s1, s2, s3) && MixAt(s, b + 1) == MixByte(1, s0, s1, s2, s3)
            && MixAt(s, b + 2) == MixByte(2, s0, s1, s2, s3) && MixAt(s, b + 3) == MixByte(3, s0, s1, s2, s3)
  {
    hide MixByte;
  }

  lemma UnmixedColumn(s: Block, c: nat)
    requires c < 4
    ensures var b := 4 * c; var s0, s1, s2, s3 := s[b], s[b + 1], s[b + 2], s[b + 3];
            && InvMixAt(s, b) == InvMixByte(0, s0, s1, s2, s3) && InvMixAt(s, b + 1) == InvMixByte(1, s0, s1, s2, s3)
            && InvMixAt(s, b + 2) == InvMixByte(2, s0, s1, s2, s3) && InvMixAt(s, b + 3) == InvMixByte(3, s0, s1, s2, s3)
  {
    hide InvMixByte;
  }

  method ComputeInvMixColumns(s: Block) returns (o: Block)
    ensures o == InvMixColumns(s)
  {
    hide InvMixByte;
    hide InvMixAt;
    var a := new bv8[16];
    for c := 0 to 4
      invariant forall k | 0 <= k < 4 * c :: a[k] == InvMixAt(s, k)
    {
      var b := c * 4;
      var s0, s1, s2, s3 := s[b], s[b + 1], s[b + 2], s[b + 3];
      UnmixedColumn(s, c);
      a[b] := ComputeInvMixByte(0, s0, s1, s2, s3);
      a[b + 1] := ComputeInvMixByte(1, s0, s1, s2, s3);
      a[b + 2] := ComputeInvMixByte(2, s0, s1, s2, s3);
      a[b + 3] := ComputeInvMixByte(3, s0, s1, s2, s3);
    }
    o := a[..];
  }

  method ComputeInvMixByte(r: nat, s0: bv8, s1: bv8, s2: bv8, s3: bv8) returns (o: bv8)
    requires r < 4
    ensures o == InvMixByte(r, s0, s1, s2, s3)
  {
    hide Product;
    hide Sum4;
    var (c0, c1, c2, c3) := InvRow(r);
    var p0 := Gmul(s0, c0);
    var p1 := Gmul(s1, c1);
    var p2 := Gmul(s2, c2);
    var p3 := Gmul(s3, c3);
    o := Sum4(p0, p1, p2, p3);
  }

  // ---- Rounds ----

  function AesEnc(state: Block, key: Block): Block { Xor(MixColumns(ShiftRows(SubBytes(state))), key) }

  function AesEncLast(state: Block, key: Block): Block { Xor(ShiftRows(SubBytes(state)), key) }

  function AesDec(state: Block, key: Block): Block { Xor(InvMixColumns(InvSubBytes(InvShiftRows(state))), key) }

  function AesDecLast(state: Block, key: Block): Block { Xor(InvShiftRows(InvSubBytes(state)), key) }

  function AesImc(x: Block): Block { InvMixColumns(x) }

  // ---- Rows and columns ----

  /** The byte in row `r` and column `c` of the state. */
  function Cell(s: Block, r: nat, c: nat): bv8
    requires r < 4 && c < 4
  {
    s[4 * c + r]
  }

  /** Theorem: row `r` is rotated by `r` columns (section 5.1.2 of FIPS 197), and back. */
  lemma RowsRotate(s: Block, r: nat, c: nat)
    requires r < 4 && c < 4
    ensures Cell(ShiftRows(s), r, c) == Cell(s, r, (c + r) % 4)
    ensures Cell(InvShiftRows(s), r, c) == Cell(s, r, (c + 4 - r) % 4)
  {
    assert SHIFT_ROWS[4 * c + r] == 4 * ((c + r) % 4) + r by { TableEntry(r, c); }
    assert INV_SHIFT_ROWS[4 * c + r] == 4 * ((c + 4 - r) % 4) + r by { TableEntry(r, c); }
  }

  lemma TableEntry(r: nat, c: nat)
    requires r < 4 && c < 4
    ensures SHIFT_ROWS[4 * c + r] == 4 * ((c + r) % 4) + r
    ensures INV_SHIFT_ROWS[4 * c + r] == 4 * ((c + 4 - r) % 4) + r
  {
    match c {
      case 0 =>
      case 1 =>
      case 2 =>
      case 3 =>
    }
  }

  /** The coefficient of x^r in the product of p and s3 x^3 + s2 x^2 + s1 x + s0, modulo x^4 + 1. */
  function PolynomialByte(p: seq<bv8>, r: nat, s0: bv8, s1: bv8, s2: bv8, s3: bv8): bv8
    requires |p| == 4 && r < 4
  {
    Sum4(Product(s0, p[r]), Product(s1, p[(r + 3) % 4]), Product(s2, p[(r + 2) % 4]), Product(s3, p[(r + 1) % 4]))
  }

  const MIX_POLYNOMIAL: seq<bv8> := [2, 1, 1, 3]
  const INV_MIX_POLYNOMIAL: seq<bv8> := [14, 9, 13, 11]

  lemma SmallProducts(a: bv8)
    ensures Product(a, 1) == a && Product(a, 2) == Xtime(a) && Product(a, 3) == Triple(a)
  {
    hide Add;
    hide Xtime;
    ProductByOne(a);
    ProductStep(a, 2);
    ProductStep(a, 3);
    AddLaws(Xtime(a), a, 0);
    AddLaws(0, Xtime(a), 0);
  }

  /** Theorem: MixColumns multiplies a column by {03}x^3 + {01}x^2 + {01}x + {02} (section 5.1.3 of FIPS 197). */
  lemma MixIsPolynomial(r: nat, s0: bv8, s1: bv8, s2: bv8, s3: bv8)
    requires r < 4
    ensures MixByte(r, s0, s1, s2, s3) == PolynomialByte(MIX_POLYNOMIAL, r, s0, s1, s2, s3)
  {
    hide Product;
    hide Sum4;
    SmallProducts(s0);
    SmallProducts(s1);
    SmallProducts(s2);
    SmallProducts(s3);
  }

  /** Theorem: InvMixColumns multiplies it by {0b}x^3 + {0d}x^2 + {09}x + {0e} (section 5.3.3). */
  lemma InvMixIsPolynomial(r: nat, s0: bv8, s1: bv8, s2: bv8, s3: bv8)
    requires r < 4
    ensures InvMixByte(r, s0, s1, s2, s3) == PolynomialByte(INV_MIX_POLYNOMIAL, r, s0, s1, s2, s3)
  {
    hide Product;
    hide Sum4;
  }

  /** The column that row shifting brings together, after substitution. */
  function ShiftedByte(s: Block, k: nat, c: nat): bv8
    requires k < 4 && c < 4
  {
    Sbox(Cell(s, k, (c + k) % 4))
  }

  function InvShiftedByte(s: Block, k: nat, c: nat): bv8
    requires k < 4 && c < 4
  {
    InvSbox(Cell(s, k, (c + 4 - k) % 4))
  }

  lemma ShiftedCells(s: Block, k: nat, c: nat)
    requires k < 4 && c < 4
    ensures Cell(ShiftRows(SubBytes(s)), k, c) == ShiftedByte(s, k, c)
    ensures Cell(InvSubBytes(InvShiftRows(s)), k, c) == InvShiftedByte(s, k, c)
    ensures Cell(InvShiftRows(InvSubBytes(s)), k, c) == InvShiftedByte(s, k, c)
  {
    hide Sbox;
    hide InvSbox;
    hide ShiftRows;
    hide InvShiftRows;
    RowsRotate(SubBytes(s), k, c);
    RowsRotate(s, k, c);
    RowsRotate(InvSubBytes(s), k, c);
  }

  lemma MixedCell(s: Block, r: nat, c: nat)
    requires r < 4 && c < 4
    ensures Cell(MixColumns(s), r, c) == MixByte(r, Cell(s, 0, c), Cell(s, 1, c), Cell(s, 2, c), Cell(s, 3, c))
    ensures Cell(InvMixColumns(s), r, c) == InvMixByte(r, Cell(s, 0, c), Cell(s, 1, c), Cell(s, 2, c), Cell(s, 3, c))
  {
    hide MixByte;
    hide InvMixByte;
  }

  lemma XorCell(a: Block, b: Block, r: nat, c: nat)
    requires r < 4 && c < 4
    ensures Cell(Xor(a, b), r, c) == Add(Cell(a, r, c), Cell(b, r, c))
  {
    hide Add;
  }

  /** The column `s` shifts into place, multiplied by the polynomial of MixColumns. */
  function MixedByte(s: Block, r: nat, c: nat): bv8
    requires r < 4 && c < 4
  {
    PolynomialByte(MIX_POLYNOMIAL, r, ShiftedByte(s, 0, c), ShiftedByte(s, 1, c), ShiftedByte(s, 2, c),
                   ShiftedByte(s, 3, c))
  }

  function InvMixedByte(s: Block, r: nat, c: nat): bv8
    requires r < 4 && c < 4
  {
    PolynomialByte(INV_MIX_POLYNOMIAL, r, InvShiftedByte(s, 0, c), InvShiftedByte(s, 1, c), InvShiftedByte(s, 2, c),
                   InvShiftedByte(s, 3, c))
  }

  lemma MixedCells(s: Block, r: nat, c: nat)
    requires r < 4 && c < 4
    ensures Cell(MixColumns(ShiftRows(SubBytes(s))), r, c) == MixedByte(s, r, c)
  {
    hide MixByte;
    hide PolynomialByte;
    hide ShiftedByte;
    hide MixColumns;
    hide ShiftRows;
    hide SubBytes;
    hide Cell;
    var t := ShiftRows(SubBytes(s));
    ShiftedCells(s, 0, c);
    ShiftedCells(s, 1, c);
    ShiftedCells(s, 2, c);
    ShiftedCells(s, 3, c);
    MixedCell(t, r, c);
    MixIsPolynomial(r, Cell(t, 0, c), Cell(t, 1, c), Cell(t, 2, c), Cell(t, 3, c));
  }

  lemma InvMixedCells(s: Block, r: nat, c: nat)
    requires r < 4 && c < 4
    ensures Cell(InvMixColumns(InvSubBytes(InvShiftRows(s))), r, c) == InvMixedByte(s, r, c)
  {
    hide InvMixByte;
    hide PolynomialByte;
    hide InvShiftedByte;
    hide InvMixColumns;
    hide InvShiftRows;
    hide InvSubBytes;
    hide Cell;
    var t := InvSubBytes(InvShiftRows(s));
    ShiftedCells(s, 0, c);
    ShiftedCells(s, 1, c);
    ShiftedCells(s, 2, c);
    ShiftedCells(s, 3, c);
    MixedCell(t, r, c);
    InvMixIsPolynomial(r, Cell(t, 0, c), Cell(t, 1, c), Cell(t, 2, c), Cell(t, 3, c));
  }

  /** Theorem: every byte of an encryption round, from the bytes of its state and key. */
  lemma RoundBytes(s: Block, key: Block, r: nat, c: nat)
    requires r < 4 && c < 4
    ensures Cell(AesEncLast(s, key), r, c) == Add(ShiftedByte(s, r, c), Cell(key, r, c))
    ensures Cell(AesEnc(s, key), r, c) == Add(MixedByte(s, r, c), Cell(key, r, c))
  {
    hide Add;
    hide ShiftedByte;
    hide MixedByte;
    hide MixColumns;
    hide ShiftRows;
    hide SubBytes;
    hide Xor;
    hide Cell;
    var t := ShiftRows(SubBytes(s));
    XorCell(t, key, r, c);
    XorCell(MixColumns(t), key, r, c);
    ShiftedCells(s, r, c);
    MixedCells(s, r, c);
  }

  /** Theorem: and of a decryption round. */
  lemma InvRoundBytes(s: Block, key: Block, r: nat, c: nat)
    requires r < 4 && c < 4
    ensures Cell(AesDecLast(s, key), r, c) == Add(InvShiftedByte(s, r, c), Cell(key, r, c))
    ensures Cell(AesDec(s, key), r, c) == Add(InvMixedByte(s, r, c), Cell(key, r, c))
  {
    hide Add;
    hide InvShiftedByte;
    hide InvMixedByte;
    hide InvMixColumns;
    hide InvShiftRows;
    hide InvSubBytes;
    hide Xor;
    hide Cell;
    XorCell(InvShiftRows(InvSubBytes(s)), key, r, c);
    XorCell(InvMixColumns(InvSubBytes(InvShiftRows(s))), key, r, c);
    ShiftedCells(s, r, c);
    InvMixedCells(s, r, c);
  }

  /** The rounds as the primitives compute them, one filled block after another. */
  method ComputeRound(state: Block, key: Block, last: bool) returns (r: Block)
    ensures r == if last then AesEncLast(state, key) else AesEnc(state, key)
  {
    hide SubBytes;
    hide ShiftRows;
    hide MixColumns;
    hide Xor;
    r := ComputeSubBytes(state);
    r := ComputeShiftRows(r, SHIFT_ROWS);
    if !last {
      r := ComputeMixColumns(r);
    }
    r := Xor(r, key);
  }

  method ComputeInvRound(state: Block, key: Block, last: bool) returns (r: Block)
    ensures r == if last then AesDecLast(state, key) else AesDec(state, key)
  {
    hide InvSubBytes;
    hide InvShiftRows;
    hide InvMixColumns;
    hide Xor;
    TablesDiffer();
    if last {
      r := ComputeInvSubBytes(state);
      r := ComputeShiftRows(r, INV_SHIFT_ROWS);
    } else {
      r := ComputeShiftRows(state, INV_SHIFT_ROWS);
      r := ComputeInvSubBytes(r);
      r := ComputeInvMixColumns(r);
    }
    r := Xor(r, key);
  }

  lemma TablesDiffer()
    ensures SHIFT_ROWS != INV_SHIFT_ROWS
  {
    assert SHIFT_ROWS[1] != INV_SHIFT_ROWS[1];
  }

  // ---- The inverse cipher ----

  lemma SubBytesUndone(s: Block)
    ensures InvSubBytes(SubBytes(s)) == s
  {
    hide Sbox;
    hide InvSbox;
    forall i | 0 <= i < 16
      ensures InvSbox(Sbox(s[i])) == s[i]
    {
      SboxInverse(s[i]);
    }
  }

  lemma ShiftRowsUndone(s: Block)
    ensures InvShiftRows(ShiftRows(s)) == s
  {
    RowTables();
  }

  /** Substitution works byte by byte, so it commutes with the permutation of bytes. */
  lemma SubstitutionCommutes(s: Block)
    ensures InvShiftRows(InvSubBytes(s)) == InvSubBytes(InvShiftRows(s))
  {
    hide InvSbox;
    RowTables();
  }

  lemma MixColumnsUndone(s: Block)
    ensures InvMixColumns(MixColumns(s)) == s
  {
    hide MixAt;
    hide InvMixAt;
    forall i | 0 <= i < 16
      ensures InvMixAt(MixColumns(s), i) == s[i]
    {
      ByteRestored(s, i / 4, i % 4);
    }
  }

  lemma ByteRestored(s: Block, c: nat, r: nat)
    requires c < 4 && r < 4
    ensures InvMixAt(MixColumns(s), 4 * c + r) == s[4 * c + r]
  {
    hide MixByte;
    hide InvMixByte;
    hide MixAt;
    hide InvMixAt;
    var b := 4 * c;
    MixedColumn(s, c);
    UnmixedColumn(MixColumns(s), c);
    ColumnRestored(r, s[b], s[b + 1], s[b + 2], s[b + 3]);
  }

  lemma InvMixColumnsLinear(a: Block, b: Block)
    ensures InvMixColumns(Xor(a, b)) == Xor(InvMixColumns(a), InvMixColumns(b))
  {
    hide InvMixByte;
    hide Add;
    forall i | 0 <= i < 16
      ensures InvMixAt(Xor(a, b), i) == Add(InvMixAt(a, i), InvMixAt(b, i))
    {
      var c := i / 4 * 4;
      InvMixByteLinear(i % 4, a[c], a[c + 1], a[c + 2], a[c + 3], b[c], b[c + 1], b[c + 2], b[c + 3]);
    }
  }

  lemma XorTwice(a: Block, k: Block)
    ensures Xor(Xor(a, k), k) == a
  {
    hide Add;
    forall i | 0 <= i < 16
      ensures Add(Add(a[i], k[i]), k[i]) == a[i]
    {
      AddCancels(a[i], 0, k[i]);
    }
  }

  /** One decryption round, under the transformed key, undoes one encryption round. */
  lemma RoundUndone(s: Block, key: Block)
    ensures AesDec(ShiftRows(SubBytes(AesEnc(s, key))), AesImc(key)) == ShiftRows(SubBytes(s))
  {
    hide SubBytes;
    hide InvSubBytes;
    hide ShiftRows;
    hide InvShiftRows;
    hide MixColumns;
    hide InvMixColumns;
    hide Xor;
    var t := ShiftRows(SubBytes(s));
    var u := AesEnc(s, key);
    ShiftRowsUndone(SubBytes(u));
    SubBytesUndone(u);
    InvMixColumnsLinear(MixColumns(t), key);
    MixColumnsUndone(t);
    XorTwice(t, InvMixColumns(key));
  }

  /** `aesenc` under each round key in turn. */
  function EncryptRounds(s: Block, keys: seq<Block>): Block {
    if keys == [] then s else AesEnc(EncryptRounds(s, keys[..|keys| - 1]), keys[|keys| - 1])
  }

  /** `aesdec` under the transformed round keys, last key first. */
  function DecryptRounds(d: Block, keys: seq<Block>): Block
    decreases |keys|
  {
    if keys == [] then d else DecryptRounds(AesDec(d, AesImc(keys[|keys| - 1])), keys[..|keys| - 1])
  }

  function Cipher(x: Block, whitening: Block, keys: seq<Block>, last: Block): Block {
    AesEncLast(EncryptRounds(Xor(x, whitening), keys), last)
  }

  function EquivalentInverseCipher(y: Block, whitening: Block, keys: seq<Block>, last: Block): Block {
    AesDecLast(DecryptRounds(Xor(y, last), keys), whitening)
  }

  lemma {:induction false} RoundsUndone(s: Block, keys: seq<Block>)
    ensures DecryptRounds(ShiftRows(SubBytes(EncryptRounds(s, keys))), keys) == ShiftRows(SubBytes(s))
    decreases |keys|
  {
    hide SubBytes;
    hide ShiftRows;
    hide AesEnc;
    hide AesDec;
    hide AesImc;
    if keys != [] {
      var front := keys[..|keys| - 1];
      RoundUndone(EncryptRounds(s, front), keys[|keys| - 1]);
      RoundsUndone(s, front);
    }
  }

  /** Theorem: section 5.3.5 of FIPS 197 holds of these primitives, for any number of rounds and any keys. */
  lemma CipherUndone(x: Block, whitening: Block, keys: seq<Block>, last: Block)
    ensures EquivalentInverseCipher(Cipher(x, whitening, keys, last), whitening, keys, last) == x
  {
    hide SubBytes;
    hide InvSubBytes;
    hide ShiftRows;
    hide InvShiftRows;
    hide Xor;
    hide EncryptRounds;
    hide DecryptRounds;
    var s := Xor(x, whitening);
    var e := EncryptRounds(s, keys);
    XorTwice(ShiftRows(SubBytes(e)), last);
    RoundsUndone(s, keys);
    SubstitutionCommutes(ShiftRows(SubBytes(s)));
    ShiftRowsUndone(SubBytes(s));
    SubBytesUndone(s);
    XorTwice(x, whitening);
  }
}
